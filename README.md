# wspy in Dafny

A model of the core of wspy, a Python 2 WebSocket library (RFC 6455), with
proofs about it. The model covers these parts of the library:

- **Frames** (`frame.py`, module `Frames`). It covers the frame record and
  its constructor check, `pack` into the base framing of section 5.2 of
  RFC 6455, `mask`, `Frame.fragment`, and `receive_frame` /
  `receive_fragments` as a decoder over a byte buffer.
- **Messages** (`message.py`, module `Messages`). It covers messages as an
  opcode and a payload, their single frame, their fragments, and
  `create_message`.
- **Extensions** (`extension.py`, module `Extensions`). It covers parameter
  validation and merging, hooks and `extension_conflicts`. It also gives a
  reconstruction of `filter_extensions`, which `handshake.py` imports but
  `extension.py` does not define (see below).
- **deflate-frame** (`deflate_frame.py`, module `Deflate`). It covers the
  constructor's checks, the RSV1 logic of the hook's `send` / `recv`, and
  the handling of the `00 00 FF FF` tail around an abstract zlib.
- **Connection** (`connection.py`, module `Connections`). It covers a class
  with the connection's flags, the hook lists and an outbound frame log. It
  models `send`, `recv`, `concat_fragments`, `handle_control_frame`,
  `send_ping`, `send_close_frame`, `shutdown_write`, `close` and
  `add_hook`.
- **Handshakes of `handshake.py`** (modules `Handshakes`, `ParamHeaders` and
  `ClientHandshakes`):
  - the merging of received header fields;
  - the server's request checks, subprotocol choice, extension negotiation
    and answer;
  - the client's request and answer checks, its redirects and HTTP
    authentication;
  - `parse_param_hdr` and `format_param_hdr`.
- **Handshakes of `websocket.py`** (module `WebSockets`). It covers the
  `websocket` class's own server and client handshakes on the raw fields
  and texts, and the `enable_ssl` guard.
- **Support modules.**
  - `Octets`: bytes, XOR and big-endian numbers.
  - `Dicts`: Python dicts as association lists. A fixed insertion order stands in for the hash order in which a Python 2 dict iterates.
  - `Strings`: `strip`, `lower`, `split`, `split_stripped`, `join`.
  - `Base64`: `b64encode`, section 4 of RFC 4648.
  - `Errors`: the exceptions as an error datatype.

The model follows the code, except for the names the code uses but never
defines, listed below. Several parts of the code raise on the inputs that
reach them, or compute something other than what they evidently mean to.
Each such part is modelled twice:

- as written, in a member whose name ends in `AsWritten`, with a lemma that
  exhibits the failure;
- corrected, in the member the rest of the model uses (see "## Findings").

Abstract functions passed as parameters stand for the following foreign
parts:

- zlib (`Zlib`);
- SHA-1 (`Sha1`);
- `os.urandom` (the key and nonce bytes);
- `urlparse` (a `Url` value);
- `python_digest` (`Env.digest`);
- UTF-8 encoding.

The socket is either a byte buffer (frames) or two frame logs (connection). A write succeeds only while the socket is open: after a shutdown for writing it raises EPIPE, and after a close EBADF.
`incoming` holds the frames it will still deliver, and `sent` holds the
frames written so far. A client handshake is given the server's answers as a
list of rounds.

Several names the code imports are defined nowhere in it. As written, the
imports of `frame.py`, `handshake.py`, `websocket.py`, `connection.py` and
`deflate_frame.py` fail, so nothing of the library loads. The model
reconstructs each name from its uses:

- `ControlFrame` is not defined in `frame.py`. `connection.py` and
  `deflate_frame.py` use it to mean a frame whose opcode is 8 or more, the
  control frames of section 5.5 of RFC 6455 (`Frames.IsControl`).
- `create_close_frame` and `unpack_close` are missing too. They are
  reconstructed from section 5.5.1 of RFC 6455: a two-byte big-endian status
  code followed by the reason, and an empty body for no code.
- `filter_extensions` is imported from `extension.py` (handshake.py:9), which
  has no such function. `Extensions.FilterExtensions` reconstructs it as the
  greedy filter its use at handshake.py:154 suggests: keep, in offer order,
  each extension that does not conflict (`extension_conflicts`) with those
  already kept.
- `SocketClosed` is imported from Python 2's built-in `exceptions` module
  (frame.py:4), which has no such name. The model uses the `SocketClosed` of
  `errors.py` (`Errors.SocketClosed`).
- `SSLError` is imported from `errors.py` (websocket.py:10), which defines
  only `SocketClosed`, `HandshakeError` and `PingError`. The model gives it
  the one error that `enable_ssl` raises (`Errors.SslAfterHandshake`).

## Model

| member | source | states |
|---|---|---|
| Frames.NewFrame | frame.py:22-46 | A masking key that is not 0 or 4 bytes long is refused with InvalidMaskingKey. Otherwise the frame holds exactly the given opcode, payload, key, FIN and RSV bits. |
| Frames.HeaderByte | frame.py:69-70 | Bit 0x80 of the first header byte is FIN, bits 0x40/0x20/0x10 are RSV1-3, and the low four bits are the opcode. |
| Frames.LengthBytes | frame.py:72-82 | A length field exists exactly when the payload length is below 2^63. It is one byte followed by 0, 2 or 8 extended-length bytes. |
| Frames.Pack | frame.py:48-87 | Packing succeeds exactly when the payload is below 2^63 bytes and the key is valid. A longer payload gives PayloadTooLong. The packed size is the header plus key plus payload, and its first byte is HeaderByte. |
| Frames.PackAsWritten | frame.py:69 | As written, packing fails on every frame, because `self.fin` is not an attribute of a frame. |
| Frames.ReadLength | frame.py:153-158 | When a length can be read, the payload starts 2 + 0/2/8 bytes in, inside the buffer. |
| Frames.Decode | frame.py:140-168 | A decoded frame takes at least the two header bytes and no more than the buffer holds, and its key is 0 or 4 bytes. |
| Frames.FrameOfHeaderByte | frame.py:146-150 | Reading the first header byte back gives FIN, RSV1-3 and the opcode that were packed. |
| Frames.ShortLengthByte | frame.py:72-76 | A length of at most 125 shares its byte with the mask bit, and both read back. |
| Frames.ReadLengthPacked | frame.py:152-158 | The length bytes written by packing are read back as the payload length, with the right payload offset and mask bit. |
| Frames.ExtendedLengthRead | frame.py:155-158 | A 126 marker followed by 2 big-endian bytes, or a 127 marker followed by 8, reads back as the length they encode. |
| Frames.PackParts | frame.py:84-87 | A packed frame is the header, then the key, then the payload (masked when a key is present). |
| Frames.PackedLayout | frame.py:69-87 | In a packed frame, the length, the key and the payload bytes sit where the decoder looks for them. |
| Frames.DecodeOfParts | frame.py:160-168 | Once the length, key and payload bytes are in place, decoding unmasks the payload with the key and consumes exactly those bytes. |
| Frames.DecodePack | frame.py:140-168 | Decoding a packed frame, whatever bytes follow it, gives the frame back and consumes exactly its packed length. |
| Frames.DecodePrefixStable | frame.py:140-168 | Decoding depends only on the bytes a frame consumes. |
| Frames.DecodeResumable | frame.py:140-168 | A frame that decodes still decodes the same with more bytes after it, and decodes from exactly its own bytes. |
| Frames.DecodeAsWritten | frame.py:139-162 | As written, decoding fails only with a TypeError, and only for a header with an extended length or a mask bit. Any other header decodes as the corrected decoder does. Fewer than two bytes are incomplete. |
| Frames.DecodeAsWrittenFails | frame.py:152-162 | As written, no packed frame with an extended length or a masking key decodes. The corrected decoder gives each such frame back. |
| Frames.DecodeAdvances | frame.py:140-168 | Each frame read takes at least one byte and no more than the buffer has. |
| Frames.ReceivedFragmentsChain | frame.py:121-137 | `receive_fragments` returns at least one frame. Its last frame is final, no earlier frame is final, and the frames are the ones the buffer starts with. |
| Frames.ReceiveFragments | frame.py:132-137 | The reading loop returns exactly ReceivedFragments of the buffer. |
| Frames.ReceivedStep | frame.py:134-135 | One more frame read moves from what the rest of the buffer gives to what has been read. |
| Frames.MaskedShape | frame.py:188-206 | The masked data has the same length, and byte i is the data byte XOR key byte i mod 4. |
| Frames.MaskedInvolution | frame.py:188-206 | Masking twice with the same key gives back the original data. |
| Frames.Mask | frame.py:197-206 | A key that is not 4 bytes gives InvalidMaskingKey. Otherwise the byte-by-byte XOR loop returns Masked(key, original). |
| Frames.ChunksProperties | frame.py:107-108 | The payload pieces are non-empty, at most n bytes each, and concatenate to the payload. |
| Frames.RawFragments | frame.py:107-110 | There is one fragment per payload piece. |
| Frames.SplitPayload | frame.py:105-110 | The loop makes one non-final CONTINUATION frame per piece, piece i masked with key i when masking is asked for. |
| Frames.FixUpFragments | frame.py:112-113 | Giving the first piece the opcode and the last piece FIN turns the raw pieces into the fragments. |
| Frames.Fragment | frame.py:92-115 | Fragmenting succeeds exactly for a size above 0 and a non-empty payload. A size of 0 is the `range` error, and any other failure is the `frames[0]` error. |
| Frames.FragmentLoop | frame.py:92-115 | `Frame.fragment` returns Fragment(f, size): the error `range` and `frames[0]` raise for a size of 0 or an empty payload, otherwise the fragments. |
| Frames.FragmentProperties | frame.py:105-115 | For n > 0 and a non-empty payload, the pieces concatenate to the payload and each is at most n bytes. Only the first keeps the opcode, the rest are CONTINUATION, and only the last is final. |
| Octets.XorNatBound | frame.py:204 | The XOR of two bytes is a byte. |
| Octets.XorInvolution | frame.py:204 | XOR with the same key byte twice gives back the byte. |
| Octets.LowBits | frame.py:150 | The low bits of a header byte are below the mask width, so the opcode has 4 bits and the short length 7. |
| Bytes.BigEndian | frame.py:78-80 | The big-endian form of a length in k bytes has exactly k bytes. |
| Bytes.FromBigEndian | frame.py:156-158 | k big-endian bytes read as a number below 256^k. |
| Bytes.BigEndianRoundTrip | frame.py:156-158 | Reading back the big-endian bytes of a length gives the length. |
| Messages.NewTextMessage | message.py:23-25 | A TextMessage has opcode TEXT and the given payload. |
| Messages.NewBinaryMessage | message.py:28-30 | The corrected BinaryMessage has opcode BINARY and the given payload. |
| Messages.NewBinaryMessageAsWritten | message.py:30 | As written, constructing a BinaryMessage raises a TypeError from `super(TextMessage, self)`. |
| Messages.ToFrame | message.py:12-13 | A message's frame is final, unmasked and has no RSV bit, and it carries the message's opcode and payload. |
| Messages.ToFragments | message.py:15-16 | A message fragments as its frame does: a size of 0 is the `range` error, and any other failure is the `frames[0]` error. |
| Messages.ToFragmentsProperties | message.py:15-16 | Fragmenting succeeds exactly for n > 0 and a non-empty payload. The pieces then concatenate to the payload, the first carries the opcode, the last is final, and each is at most n bytes. |
| Messages.CreateMessage | message.py:39-43 | The message has the given opcode and payload. It is a TextMessage exactly for TEXT and a BinaryMessage exactly for BINARY. |
| Messages.CreateMessageAsWrittenFailsOnData | message.py:40-41 | As written, `create_message` raises for TEXT and BINARY, because it calls the dict. The corrected version builds the two subclasses. |
| Messages.CreateMessageOfFrame | message.py:39-43 | Creating a message from the opcode and payload of a text or binary message's frame gives that message back. |
| Extensions.FirstUnknown | extension.py:11-13 | There is no unknown key exactly when every key is known. Otherwise it is the first key not known. |
| Extensions.NewExtension | extension.py:10-22 | Construction succeeds exactly when every key of `defaults` and `request` is a key of the class defaults. Otherwise it fails with UnrecognizedParameter naming such a key. |
| Extensions.NewExtensionParams | extension.py:15-20 | An instance parameter is the argument's value when given, and the class's value otherwise. |
| Extensions.CreateHook | extension.py:31-37 | The hook carries the extension it was created by, as the corrected deflate-frame hook does (see "## Findings", deflate_frame.py:40-41). The base `Hook` never stores it, since its `init` does nothing. |
| Extensions.CreateHookParams | extension.py:32-34 | A hook parameter is the keyword argument's value when given, and the extension's default otherwise. |
| Extensions.HookSend | extension.py:47-48 | The base hook sends a frame unchanged. |
| Extensions.HookRecv | extension.py:50-51 | The base hook receives a frame unchanged. |
| Extensions.ExtensionConflicts | extension.py:54-69 | The loop returns true exactly when the extension claims an RSV bit some existing extension claims, or shares an opcode with one. |
| Extensions.ConflictsByReservation | extension.py:60-69 | The flags the loop accumulates decide the same conflict as the direct definition. |
| Extensions.FilterExtensions | handshake.py:154 | The kept extensions are a subsequence of the offers (same order, some left out), and no two of them conflict. |
| Extensions.FilterExtensionsProperties | handshake.py:154 | `filter_extensions` keeps a conflict-free subsequence of the offers, in offer order, and every dropped offer conflicts with what was kept. |
| Extensions.KeepCompatibleOrder | handshake.py:154 | Each greedy step only appends to the kept list, and what it appends is a subsequence of the offers still to see. |
| Extensions.KeepCompatibleProperties | handshake.py:154 | Each greedy step keeps the kept list conflict-free and extends it. An offer it skips conflicts with the result. |
| Deflate.Lookup | deflate_frame.py:28-29 | Reading a parameter fails with KeyError exactly when it is missing, and returns its value otherwise. |
| Deflate.NewDeflateFrame | deflate_frame.py:25-37 | The constructor succeeds exactly when Extension's does and its defaults hold an int max_window_bits of at most 32768 and a True or False no_context_takeover. On success the instance is Extension's. Extension's error comes first, then KeyError for a missing max_window_bits or no_context_takeover, then the window-bits error, then the no_context_takeover error. |
| Deflate.DeflateFrameDefaultsAccepted | deflate_frame.py:23-37 | The class defaults are accepted for both deflate-frame names. max_window_bits 32769 and no_context_takeover 1 are refused. |
| Deflate.DeflateHookSettings | deflate_frame.py:40-49 | The hook's settings are the parameters it was made with. The other side's window bits default to 15. |
| Deflate.DeflateCreateHookAsWritten | deflate_frame.py:40-41 | As written, creating a deflate-frame hook raises a TypeError whatever the parameters. |
| Deflate.DeflateHookOfDefaults | deflate_frame.py:40-49 | The corrected hook of an extension built from its defaults has context takeover and window bits 15 both ways. |
| Deflate.HookOfDefaults | deflate_frame.py:43-49 | A hook made from the deflate-frame defaults and an empty request has settings (false, 15, 15). |
| Deflate.StripSyncTail | deflate_frame.py:76-79 | Stripping succeeds exactly when the output ends in `00 00 FF FF`. Otherwise it is the failed assertion. |
| Deflate.StripThenAppend | deflate_frame.py:76-84 | The stripped output plus the tail re-appended by inflate is the original output, four bytes longer. |
| Deflate.DeflateHook.constructor | deflate_frame.py:40-49 | A hook starts with its zlib, its settings and empty compressor and decompressor histories. |
| Deflate.DeflateHook.Deflate | deflate_frame.py:68-79 | Without context takeover, the result is a finished stream plus 0x00 and the history is unchanged. Otherwise it is the sync-flushed stream without its tail, with the data added to the history. |
| Deflate.DeflateHook.Inflate | deflate_frame.py:81-84 | The data plus `00 00 FF FF` is decompressed and added to the history. Unused input fails the assertion. |
| Deflate.DeflateHook.Send | deflate_frame.py:51-56 | Control frames and frames with RSV1 set pass unchanged. Any other frame gets RSV1 and the deflated payload, and nothing else changes. |
| Deflate.DeflateHook.Recv | deflate_frame.py:58-66 | Frames without RSV1 pass unchanged. A compressed control frame is an error. A compressed data frame loses RSV1 and has its payload inflated. |
| Deflate.DeflateInflateRoundTrip | deflate_frame.py:76-84 | With context takeover, each deflated payload inflates back to the data on the other side, given a zlib whose sync flush the decompressor inverts. |
| Connections.ClosePayload | connection.py:180-181 | The CLOSE body is empty without a code. Otherwise it is two code bytes followed by the reason. |
| Connections.UnpackClose | connection.py:122 | A body of fewer than two bytes has no code and no reason. Otherwise the reason is everything after the code. |
| Connections.CloseFrame | connection.py:181 | The close frame is a final, unmasked CLOSE carrying the close payload. |
| Connections.PongFrame | connection.py:134 | The answer to a PING is a final, unmasked PONG with the same payload. |
| Connections.UnpackClosePayload | connection.py:122-130 | Unpacking a packed close body gives back the code and the reason. |
| Connections.EchoedCloseAgrees | connection.py:129-130 | The CLOSE echoed for a received one unpacks to the same code and reason. |
| Connections.ApplyHooksAppend | connection.py:57-58 | Applying a list of hooks in order is applying its first part, then the rest. |
| Connections.MessageToFrames | connection.py:56-64 | Without a fragment size, the result is one final frame of the hooked message, masked exactly when asked. With a size, it succeeds exactly for a positive size and a non-empty hooked payload. |
| Connections.MessageToFramesAsWritten | connection.py:61 | As written, sending without a fragment size always fails, because `frame()` takes no `mask`. Fragmented sending is the corrected one. |
| Connections.UnfragmentedSendAsWrittenFails | connection.py:60-61 | Unfragmented sending fails as written and succeeds corrected. |
| Connections.ConcatFragmentsPlain | connection.py:103-109 | Without receive hooks, the message has the first fragment's opcode and the payloads concatenated in order. |
| Connections.FramingRoundTrip | connection.py:56-114 | Concatenating the frames a message is sent as gives the message back, fragmented or not. |
| Connections.SendOrderAppend | connection.py:234-235 | Appending a hook pair puts its send hook last. |
| Connections.RecvOrderAppend | connection.py:237-238 | Appending a hook pair puts its receive hook first. |
| Connections.WithPairOrders | connection.py:234-238 | Adding a pair, appended or prepended, puts its hooks at the corrected positions of both lists. |
| Connections.HooksInverse | connection.py:210-238 | When each pair's receive hook undoes its send hook, the receive order undoes the send order. |
| Connections.ExchangeRoundTrip | connection.py:56-114 | A message sent through the send hooks and framing comes back through concatenation and the receive hooks unchanged. |
| Connections.PyInsert | connection.py:235 | `list.insert(i, x)` adds one element at Python's index for i, negative indices counting from the end. |
| Connections.AddHookAsWritten | connection.py:234-238 | As written, a send hook added without `prepend` goes before the last one, while with `prepend` it goes first. A receive hook without `prepend` goes first. Each list grows by the hook it is given. |
| Connections.AddHookAsWrittenMisorders | connection.py:234-238 | As written, `insert(-1, …)` puts a newly added send hook before the last one instead of after it. |
| Connections.Connection.constructor | connection.py:40-54 | A new connection has no CLOSE sent or received, no ping outstanding, no hooks, an open socket, and `onopen` called. |
| Connections.Connection.ReadFrame | connection.py:91 | `sock.recv()` delivers the next incoming frame and logs it. At the end of the stream it raises SocketClosed. |
| Connections.Connection.SendFrame | connection.py:75-79 | On an open socket the frame is appended to the outbound log. Once writing is shut down `sendall` raises EPIPE, and once the socket is closed EBADF, and then the log is unchanged. |
| Connections.WriteOutcome | websocket.py:109-115 | A write succeeds exactly on an open socket. It fails with EPIPE after a shutdown for writing and with EBADF after a close. |
| Connections.Connection.Send | connection.py:66-73 | The frames of the hooked message are appended in order when the socket is open. On a socket that is not open the first write raises and nothing is sent. A framing error leaves the log unchanged. |
| Connections.Connection.ShutdownWrite | connection.py:185-191 | Corrected. After a received CLOSE, `onclose` runs, the socket closes and SocketClosed(False) is raised. Without kept close parameters it is an AttributeError. Otherwise only writing is shut down, on the websocket's own socket (see "## Findings", connection.py:191). |
| Connections.ShutdownWriteAsWritten | connection.py:185-191 | As written, `shutdown_write` always raises. Without a received CLOSE it is the AttributeError for the `shutdown` that a `websocket` lacks. |
| Connections.CloseAsWritten | connection.py:193-208 | As written, `close` always raises and never reads the peer's CLOSE. On an open socket without a received CLOSE it ends in that AttributeError. On a socket no longer open the write fails first. |
| Connections.Connection.SendCloseFrame | connection.py:180-183 | On an open socket a CLOSE frame is sent and the flag set, then `shutdown_write`'s cases follow. A CLOSE already received gives SocketClosed(False) after `onclose`, otherwise writing is shut down. On a socket no longer open the write raises (EPIPE or EBADF) and nothing changes. |
| Connections.Connection.SendPing | connection.py:171-178 | On an open socket a PING with the payload is sent, `onping` runs, and the payload is recorded as outstanding. Otherwise the write raises, `onping` does not run and nothing is recorded. |
| Connections.Connection.HandleControlFrame | connection.py:116-147 | A CLOSE after ours closes the socket with SocketClosed(True) and sends nothing. A first CLOSE is echoed and its parameters kept. A PING gets one identical PONG, or the write error when the socket is no longer open. An unsolicited or mismatched PONG raises PingError with `ping_sent` cleared. A matching PONG clears both and calls `onpong`. |
| Connections.Connection.HandleClose | connection.py:120-130 | A received CLOSE is handled with the two cases for whether one was already sent. |
| Connections.Connection.HandlePong | connection.py:136-147 | The three PONG cases, with `ping_sent` cleared in each. |
| Connections.Connection.Recv | connection.py:81-101 | A returned message comes from a fragment chain, in which only the last frame is final and later frames are CONTINUATION. It is the concatenation of the data frames read, through the receive hooks. Control frames read meanwhile are answered and never collected. A new data frame while fragments are pending is an error. |
| Connections.Connection.RecvStep | connection.py:90-99 | One iteration of the receiving loop keeps the collected chain and the PONG log consistent with the frames read. |
| Connections.Connection.ControlStep | connection.py:93-94 | A control frame met while collecting leaves the fragments as they are. |
| Connections.Connection.Close | connection.py:193-208 | The call always ends in an error. On a socket no longer open the CLOSE cannot be written, and nothing changes: EPIPE after our own earlier close, EBADF once the peer's CLOSE has been echoed and the socket closed. On an open socket the CLOSE is sent. After a CLOSE was received, `onclose` runs and SocketClosed(False) is raised. Otherwise the next frame must be a CLOSE, which closes the socket with SocketClosed(True). Any other frame is consumed and raises ExpectedCloseFrame, and no frame raises SocketClosed. In both of these cases the write side is shut and no handler has run. |
| Connections.Connection.AddHook | connection.py:210-238 | A send hook goes first when prepended and last otherwise. A receive hook goes to the mirror position. |
| Connections.GatherData | connection.py:95-99 | A data frame that continues the chain is collected and adds no PONG. |
| Connections.GatherControl | connection.py:93-94 | A PING or PONG read while collecting adds nothing to the chain, and a PING adds its PONG. |
| Dicts.Keys | handshake.py:57-63 | The keys of a dict are its names, in the order the model keeps them (insertion order). |
| Dicts.Get | handshake.py:60 | A lookup finds a value exactly for a key in the dict. |
| Dicts.SetGet | handshake.py:383 | After `d[k] = v`, key k reads v and every other key reads as before. |
| Dicts.SetFresh | handshake.py:383 | Setting a new key appends it. |
| Dicts.SetKeys | handshake.py:383 | Setting a key that exists keeps the key order the model keeps. A new key goes last. |
| Dicts.SetUnique | handshake.py:383 | Setting keeps the keys unique. |
| Dicts.UpdateGet | extension.py:16-20 | After `d.update(o)`, a key of o reads o's value and any other key reads d's. |
| Strings.StripLeft | handshake.py:361 | Stripping on the left leaves a suffix that does not start with whitespace. |
| Strings.StripRight | handshake.py:361 | Stripping on the right leaves a prefix that does not end with whitespace. |
| Strings.Strip | handshake.py:361 | `str.strip` leaves no surrounding whitespace. |
| Strings.StripIdempotent | handshake.py:361 | Stripping a stripped string changes nothing. |
| Strings.Lower | handshake.py:109 | `lower()` maps A-Z to a-z and keeps every other character. |
| Strings.ContainsAt | handshake.py:109 | `sub in s` holds exactly when sub occurs at some position of s. |
| Strings.FirstIndex | handshake.py:365-366 | The first occurrence of a delimiter has no earlier one. |
| Strings.Split | handshake.py:361 | `str.split` gives at least one part. |
| Strings.SplitJoin | handshake.py:361 | Splitting the join of parts that do not contain the delimiter gives the parts back. |
| Strings.SplitOnce | handshake.py:366 | A split with maxsplit 1 cuts at the first delimiter. |
| Strings.SplitStripped | handshake.py:360-361 | `split_stripped` of an empty value is []. Otherwise it has one stripped entry per part of the split. |
| Strings.SplitStrippedOnce | handshake.py:366 | `split_stripped(hdr, ';', 1)` gives the stripped text before and after the first ';'. |
| Strings.SplitStrippedJoin | websocket.py:17-18 | Splitting a ", "-joined list of non-empty stripped entries without the delimiter gives the entries back. |
| Strings.SplitStrippedPadded | websocket.py:17-18 | Entries padded by a space after each delimiter are read back stripped. |
| Strings.NatToString | handshake.py:397 | `str(n)` of a natural number is all digits. |
| Strings.ParseNatToString | handshake.py:377-378 | `int(str(n))` is n. |
| Base64.Encode | handshake.py:164 | The encoding has 4 characters per started group of 3 bytes. |
| Base64.ValueOfLetter | handshake.py:164 | Each letter of the alphabet stands for its own 6-bit value. |
| Base64.QuadRoundTrip | handshake.py:164 | Four letters of a full group decode to its three bytes. |
| Base64.SingleRoundTrip | handshake.py:164 | One byte, padded with "==", decodes back. |
| Base64.PairRoundTrip | handshake.py:164 | Two bytes, padded with "=", decode back. |
| Base64.GroupRoundTrip | handshake.py:164 | A group of three bytes in front of a tail that round-trips round-trips too. |
| Base64.EncodeDecode | handshake.py:164 | Decoding `b64encode(data)` gives data back. |
| Base64.EncodeInjective | handshake.py:235-238 | Different byte strings never encode alike, so comparing accept tokens compares digests. |
| ParamHeaders.ParseValue | handshake.py:377-378 | A value becomes an int exactly when it is all digits, and stays text otherwise. |
| ParamHeaders.ParseParam | handshake.py:374-381 | A parameter without '=' is a key with value True. Otherwise the key and value are the stripped text around the first '='. |
| ParamHeaders.NameAndParams | handshake.py:365-369 | Without ';' the entry is the name and no parameter text. Otherwise the entry is cut at the first ';'. |
| ParamHeaders.ParseParamHdrAsWritten | handshake.py:364-385 | As written, the name is the text before the first ';'. |
| ParamHeaders.UnpackParamHdrAsWritten | handshake.py:385 | Unpacking the one-item generator into a name and parameters raises for every entry. |
| ParamHeaders.ParseParamHdr | handshake.py:364-385 | The corrected parser returns the name before the first ';'. An entry without ';' has no parameters. |
| ParamHeaders.BareName | handshake.py:367-369 | An entry without ';' is a bare name, even as written. |
| ParamHeaders.FormatParam | handshake.py:392-397 | A parameter is left out exactly when it is False or None. True is written as a bare key. |
| ParamHeaders.FormattedParams | handshake.py:399 | The written parameters are at most the given ones, and none is empty. A text is written exactly when some parameter formats to it, i.e. is not False or None and does not format to "" (the `filter(None, ...)`). |
| ParamHeaders.FormattedConcat | handshake.py:399 | Formatting a list of parameters is formatting each part in turn: the map and filter work pair by pair, in order. |
| ParamHeaders.EmptyFlagDropped | handshake.py:399-400 | A flag with an empty name formats to "" and is dropped. For example, the header value of x with flags "" and a is "x; a". |
| ParamHeaders.FormatParamHdrAsWritten | handshake.py:388-400 | As written, no parameters give the bare name. Otherwise the parameters follow "; " and are joined by ", ". |
| ParamHeaders.FormatParamHdr | handshake.py:388-400 | The corrected formatter joins parameters by "; ". |
| ParamHeaders.ParamsSplitAcrossEntries | handshake.py:400 | As written, "x; a, b" is read back as extension x with a, plus an extension named b. |
| ParamHeaders.ParamRoundTrip | handshake.py:374-397 | Parsing a written token parameter (True, digits, or clean text) gives the key and value back. |
| ParamHeaders.ParamsTextRoundTrip | handshake.py:373-399 | Parsing the joined parameter text gives back the parameters in order. |
| ParamHeaders.ParamHdrRoundTrip | handshake.py:364-400 | Parsing a formatted entry gives back the name and the parameters. |
| ParamHeaders.ExtensionsHeader | handshake.py:192-194 | Without extensions the header value is empty. |
| ParamHeaders.ExtensionsHeaderRoundTrip | handshake.py:245-246 | The client's reading of the extensions header the server writes gives back each name and its parameters, in order. |
| Handshakes.ReceiveHeaders | handshake.py:57-65 | The merging loop returns MergedHeaders of the fields. |
| Handshakes.ValuesOfPresent | handshake.py:59-63 | A name has values exactly when a field of that name arrived. |
| Handshakes.MergedHeaders | handshake.py:57-63 | The merged dict holds each name once. |
| Handshakes.MergeFieldUnique | handshake.py:60-63 | Merging one field into a dict with one entry per name keeps one entry per name. |
| Handshakes.MergedGet | handshake.py:57-63 | A merged name reads all of its values joined by ", " in arrival order. An absent name is missing. |
| Handshakes.MergedUnique | handshake.py:57-63 | The merged dict has each name once. |
| Handshakes.CheckOrigin | handshake.py:117-129 | A browser without Origin fails, and so does no Origin while origins are trusted. An untrusted origin fails too. The answered origin is the client's when trusted origins are set, and "null" otherwise. |
| Handshakes.RequiredPresent | handshake.py:96-99 | No required name is missing exactly when Host, Upgrade, Connection, Sec-WebSocket-Key and Sec-WebSocket-Version are all present. |
| Handshakes.CheckRequest | handshake.py:94-129 | The request passes exactly when it is acceptable. The first missing required header is reported first, then the version, the keywords (case-insensitively) and the origin, in order. |
| Handshakes.FirstSupportedUnique | handshake.py:136-139 | The first offered protocol the server supports is unique. |
| Handshakes.SelectProtocol | handshake.py:132-139 | The chosen protocol is the first client-offered one, in client order, that the server supports, or none. |
| Handshakes.LastNamed | handshake.py:143 | The extension for a name is the last one of that name, as in a dict built from the list. It is missing exactly when none has that name. |
| Handshakes.OfferOfParsed | handshake.py:147-152 | An offered entry is kept exactly when its name is supported, with that extension and the entry's parameters. |
| Handshakes.CollectOffers | handshake.py:143-152 | The loop collects the supported offers in the client's order. |
| Handshakes.OffersStep | handshake.py:147-152 | Each entry adds its offer to those of the entries before it. |
| Handshakes.OffersSupported | handshake.py:147-152 | Every collected offer is a supported extension with the parameters of some offered entry of its name. |
| Handshakes.OffersConcat | handshake.py:147-152 | The offers of two lists of entries are the offers of each in order. |
| Handshakes.KeepOffersFilters | handshake.py:154 | Keeping offers greedily keeps exactly the extensions `filter_extensions` keeps, each with its own parameters. |
| Handshakes.HooksOf | handshake.py:156-158 | There is one hook per kept offer, made from its extension and parameters. |
| Handshakes.NegotiatedHooks | handshake.py:154-158 | The negotiated extensions are the filtered offers, and each hook pairs an extension with the parameters it was offered with. |
| Handshakes.HooksAsWritten | handshake.py:156 | As written, `zip` pairs filtered extensions with the parameters of all offers by position. |
| Handshakes.ZipMisalignsParams | handshake.py:156-158 | Take offers a, b (with x=1) and c, where b conflicts with a. As written, c's hook gets b's parameters. Corrected, it gets its own. |
| Handshakes.SecondDropped | handshake.py:154 | Of three offers whose second clashes with the first and third does not, the second is dropped. |
| Handshakes.AcceptToken | handshake.py:163-164 | The accept token of a 20-byte digest is 28 characters. |
| Handshakes.ClientKey | handshake.py:314 | The key of 16 random bytes is 24 characters. |
| Handshakes.EncodeStripped | handshake.py:234 | A base64 text has no surrounding whitespace, so stripping the answered token changes nothing. |
| Handshakes.AcceptAgreement | handshake.py:233-238 | The client accepts the token the server computes for the client's own key. |
| Handshakes.OtherDigestRefused | handshake.py:237-238 | A token computed with another digest of the key is refused. |
| Handshakes.Requested | handshake.py:192-193 | Each negotiated extension is written with its name and its request parameters. |
| Handshakes.OpeningFields | handshake.py:181-186 | The first answer lines carry the accept token and no protocol or extensions field. |
| Handshakes.ServerLines | handshake.py:181-194 | The answer starts with the 101 status line and has at least the six fixed lines. |
| Handshakes.ServerLinesFields | handshake.py:181-194 | The answer carries the accept token. It carries the protocol exactly when a non-empty one was chosen, and the extensions header exactly when some were negotiated. |
| Handshakes.Endpoint.constructor | handshake.py:18-20 | A handshake's `wsock` starts with its settings, no protocol, no hooks and an open socket. |
| Handshakes.NegotiateExtensions | handshake.py:141-160 | The extensions become the filtered supported offers, with one hook each appended. The settings are unchanged. |
| Handshakes.AcceptableCarries | handshake.py:96-99 | An acceptable request has Host and a key, and passes the checks. |
| Handshakes.Answer | handshake.py:162-194 | The answer to an acceptable request starts with the 101 status line. |
| Handshakes.ServerResponse | handshake.py:94-194 | The server answers exactly an acceptable request, and otherwise fails with the first check's error and closes. On success the protocol is the first supported offer, the extensions and hooks are negotiated, and the answer is Answer(…). |
| Handshakes.TargetOf | handshake.py:30-35 | A request line gives a location exactly when it reads "GET <location> HTTP/1<any>1". |
| Handshakes.RequestLineRead | handshake.py:30-35 | The GET line the client writes gives back its location. |
| Handshakes.ServerPerform | handshake.py:87-92 | A line that is not a GET request fails and closes. Otherwise the location is stored, and the answer is given exactly for an acceptable request. A failed check closes with CheckRequest's error and leaves the protocol, extensions and hooks as they were. Success leaves `closed` alone and appends one hook per negotiated extension. |
| ClientHandshakes.HostValue | handshake.py:318 | The Host value is the peer's host, a colon, and then decimal digits that read back as the peer's port. |
| ClientHandshakes.RequestLines | handshake.py:309-339 | The request starts with the GET line for the location and has at least the eight fixed lines. |
| ClientHandshakes.RequestCarriesKey | handshake.py:321 | The request carries the key it generated. |
| ClientHandshakes.StatusOf | handshake.py:42-47 | A status is read exactly when the text starts "HTTP/1.1 " followed by three digits. |
| ClientHandshakes.StatusRead | handshake.py:42-47 | A three-digit code written after "HTTP/1.1 " is read back. |
| ClientHandshakes.StatusDigits | handshake.py:42-47 | Three digits after "HTTP/1.1 " read as their number. |
| ClientHandshakes.SwitchingIs101 | handshake.py:181 | The server's status line reads as 101 to the client. |
| ClientHandshakes.CheckAnswer | handshake.py:221-238 | The answer passes exactly when it is valid. A missing Upgrade is reported first, then a missing Connection. |
| ClientHandshakes.Adopted | handshake.py:245-254 | At most one extension is taken per entry of the answer. |
| ClientHandshakes.AdoptedStops | handshake.py:248-250 | The first unsupported entry stops the adoption. |
| ClientHandshakes.AdoptedComplete | handshake.py:245-250 | Adoption fails exactly when some entry is not taken. |
| ClientHandshakes.AdoptedSupported | handshake.py:241-254 | Every adopted extension is one the client supports. The entry that stops adoption names none. |
| ClientHandshakes.AdoptExtensions | handshake.py:241-254 | The client's extensions become those the answer names, in its order, with one hook each. An unsupported one raises. |
| ClientHandshakes.TakeOver | handshake.py:252-254 | An adopted extension and its hook are appended. |
| ClientHandshakes.AdoptProtocol | handshake.py:256-263 | An answered protocol is accepted exactly when it is "null" or one the client offered, and then it is taken over. Otherwise the handshake fails and closes. |
| ClientHandshakes.CheckHandshake | handshake.py:221-263 | The 101 answer is accepted exactly when its checks pass. A failed header check closes. An unsupported extension raises without closing and keeps the protocol. An unsupported protocol closes. On success the extensions and protocol are adopted, the protocol is kept when the answer names none, and `closed` is unchanged. |
| ClientHandshakes.AuthMode | handshake.py:269 | The mode is the challenge's first space-free word. |
| ClientHandshakes.BasicAuthorization | handshake.py:341-345 | The basic credentials start with "Basic ". |
| ClientHandshakes.BasicDecodes | handshake.py:345 | The credentials decode to user:password in UTF-8. |
| ClientHandshakes.DigestAuthorization | handshake.py:347-357 | Digest credentials exist exactly when realm, nonce and opaque were challenged. A missing one raises KeyError. Otherwise they are the digest of these inputs. |
| ClientHandshakes.DefaultPort | handshake.py:297 | The default port is 443 exactly for a secure connection, and 80 otherwise. |
| ClientHandshakes.ReconnectAsWritten | handshake.py:301-303 | As written, a new address closes the socket and then connects that closed socket, which fails with EBADF. Only an unchanged address goes on. |
| ClientHandshakes.NamedRedirectFails | handshake.py:299-303 | As written, a Location naming its host by name, with a port, fails at the reconnect, because the peer name is numeric. Corrected, the client moves to that host and port. |
| ClientHandshakes.RedirectAddressAsWritten | handshake.py:296-299 | As written, a Location without a port raises, because it reads `self.secure`. With a port, the address is the net location including the port. |
| ClientHandshakes.RedirectAddress | handshake.py:293-303 | The corrected address is the host, on the URL's port or the scheme's default. |
| ClientHandshakes.PortlessRedirect | handshake.py:296-297 | A portless Location fails as written and goes to port 80 corrected. |
| ClientHandshakes.PortedRedirect | handshake.py:299 | As written, the host name of a ported Location keeps its port. |
| ClientHandshakes.ClientHandshake.constructor | handshake.py:203-205 | A client handshake starts with no redirects, no key and nothing sent. |
| ClientHandshakes.ClientHandshake.RequestHeaders | handshake.py:309-339 | An empty location fails and closes. Otherwise a new key is drawn and the request lines for the current settings are returned. |
| ClientHandshakes.ClientHandshake.HandleHandshake | handshake.py:221-263 | A 101 answer is accepted exactly when its checks pass for the key sent, and is recorded. |
| ClientHandshakes.ClientHandshake.Send | handshake.py:281-282 | The request, with any authorization, is sent under the new key. A failed authorization is raised instead. |
| ClientHandshakes.ClientHandshake.Perform | handshake.py:207-209 | Success means an accepted answer to a request sent with the current key, and never more than 10 redirects. |
| ClientHandshakes.ClientHandshake.HandleRound | handshake.py:209-219 | A response that is not HTTP/1.1 fails and closes, as does a status other than 101, 401, 301, 302, 303, 307 or 308. |
| ClientHandshakes.ClientHandshake.HandleResponse | handshake.py:211-219 | Status 101 goes to the handshake, 401 to authentication and the redirect codes to redirect. Anything else fails. |
| ClientHandshakes.ClientHandshake.HandleAuth | handshake.py:265-283 | A missing challenge raises KeyError. Missing credentials fail, and so does an unsupported mode. Otherwise the request is sent again with credentials. |
| ClientHandshakes.ClientHandshake.Retry | handshake.py:281-283 | Without another answer to read, it fails with NoResponse. Success means an accepted answer to the request it sent. |
| ClientHandshakes.ClientHandshake.HandleRedirect | handshake.py:285-307 | An 11th redirect fails. A missing Location raises KeyError. Otherwise the redirect trail records the corrected address of the Location and its path as the new location, and the handshake is performed again. The redirect count grows. |
| WebSockets.HeaderText | websocket.py:229-239 | The text of a non-empty list of fields ends in CRLF. |
| WebSockets.Message | websocket.py:229-239 | A handshake text starts with its first line and ends with an empty line. |
| WebSockets.ServerCheck | websocket.py:174-209 | Every failure is a HandshakeError. A request that passes has all required headers, version 13, "websocket" in Upgrade and "upgrade" in Connection. |
| WebSockets.ServerChecksAgree | websocket.py:174-209 | The checks on the raw fields with `header()` decide exactly as handshake.py's checks on the merged dict, with the same error. |
| WebSockets.FirstProtocol | websocket.py:213-218 | The protocol is the first offered one the server supports, or none (answered "null"). |
| WebSockets.ProtocolReadFromExtensions | websocket.py:212-218 | As written, the offered protocol p, which the server supports, is not found, because the list is read from Sec-WebSocket-Extensions. Corrected, p is chosen. |
| WebSockets.Supported | websocket.py:221-222 | The answered extensions are exactly the offered ones the server supports, no more than offered. |
| WebSockets.AnswerText | websocket.py:229-239 | The answer ends with an empty line and reads as status 101. |
| WebSockets.SwitchingStatus | websocket.py:229 | Whatever follows the status line, the client reads 101. |
| WebSockets.RequestText | websocket.py:259-286 | The request starts with the GET line for the location and ends with an empty line. |
| WebSockets.ResponseRequiredPresent | websocket.py:338-340 | No required name is missing exactly when Upgrade, Connection and Sec-WebSocket-Accept are present. |
| WebSockets.ResponseCheck | websocket.py:337-373 | The answer passes exactly when it is acceptable. The conditions are: the three fields, the keywords, the accept token, the same extension names as the client's in both directions, and a protocol that is none, "null" or offered. The first missing field is reported first. On success the result is the protocol to take over. |
| WebSockets.RedirectTargetAsWritten | websocket.py:316-322 | As written, a Location without a port raises, because `url.port` is read-only. |
| WebSockets.PortlessTargetFails | websocket.py:319-320 | Every portless Location stops the client as written. Corrected, it goes to the default port. |
| WebSockets.Respond | websocket.py:211-239 | The computed answer is AnswerText(Shake(…)): the accept token, the chosen protocol and the supported extensions. |
| WebSockets.WebSocket.constructor | websocket.py:45-73 | A new websocket is not secure, has no handshake started, and has no protocol. |
| WebSockets.WebSocket.ServerHandshake | websocket.py:148-240 | A non-GET line fails, and so does a failed check, which closes the socket. Otherwise the answer text is sent and `handshake_started` is set. Settings and TLS are unchanged. |
| WebSockets.WebSocket.Write | websocket.py:239-240 | The text is sent and `handshake_started` is set. |
| WebSockets.WebSocket.ClientHandshake | websocket.py:242-376 | `handshake_started` is set. Success means an accepted answer to the last request sent. |
| WebSockets.WebSocket.Exchange | websocket.py:251-287 | An empty location fails and closes. Success means an accepted answer to the request written. |
| WebSockets.WebSocket.ReceiveResponse | websocket.py:289-373 | A non-HTTP answer fails and closes. A 401 raises without closing. Any other unhandled status fails and closes. A 101 is accepted exactly when acceptable, and takes over a named protocol. |
| WebSockets.WebSocket.Redirect | websocket.py:314-330 | Without another answer to read, it fails with NoResponse. Success means an accepted answer after the redirect. |
| WebSockets.WebSocket.HandleAnswer | websocket.py:337-373 | The 101 answer is accepted exactly when acceptable. Otherwise the first failed check is raised and the socket closed. A named protocol is taken over. |
| WebSockets.WebSocket.Adopt | websocket.py:369-373 | The named protocol, if any, is taken over and the answer recorded. |
| WebSockets.WebSocket.EnableSsl | websocket.py:378-388 | Once a handshake has started, SSLError is raised and nothing changes. Otherwise the socket becomes secure. |
| WebSockets.SslAfterClientHandshake | websocket.py:375-385 | After a client handshake, enabling TLS always fails. |

## Left out

- Socket I/O:
  - `recvn`, `sendall`, `shutdown`, `connect` and `accept`;
  - the `bind`, `listen`, `setsockopt`, `getpeername` and `getsockname` wrappers;
  - `websocket.send`/`recv`/`recvn`.

  Frames are bytes in a buffer, and a connection reads and writes frame logs.
- `ssl.wrap_socket`: foreign code. Only the `handshake_started` guard and the `secure` flag are modelled.
- zlib, SHA-1, `os.urandom`, `urlparse`, `python_digest` and UTF-8 encoding: foreign code, passed in as functions or values.
- The text scanning of the raw HTTP header (the `re` searches, the 512-byte receive loop, UTF-8 decoding with `ignore`). The model receives the request or status line and the list of (name, value) fields that `re.findall` yields.
- `receive_forever` and the `onmessage`/`onerror` calls: an endless loop of `recv` plus exception plumbing. The other `on*` handlers are a log of events.
- `server.py`, `multiplex.py`, `test.py`, `setup.py` and `__init__.py`: concurrency, stubs, drivers and packaging.
- `Frame.__str__` and `Message.__str__`: debugging text.
- Opcodes are the 4-bit values 0..15. Python accepts any int, which `pack` would then spill into the FIN and RSV bits.
- Frames.ReceiveFragments: the reader is any decoder that advances (Frames.DecodeAdvances shows Decode is one). An incomplete buffer ends the read instead of blocking for more bytes.
- Connections.Connection.Recv: when the socket has no more frames, the model raises SocketClosed where the source would block.
- ClientHandshakes.ClientHandshake.Perform: when the given rounds run out, the model fails with NoResponse where the source would block. It does not state the order of the error cases beyond those listed.
- WebSockets.WebSocket.ClientHandshake: the same NoResponse replaces a blocking read.
- WebSockets.WebSocket.Redirect: it states only the overall outcome. Reconnecting to the new address is not modelled. As written, websocket.py:324-326 closes the socket and then connects the same closed socket, as handshake.py:301-303 does. So even a Location with a port fails there with EBADF (ClientHandshakes.ReconnectAsWritten).
- Hooks that update a frame in place (`deflate_frame.py` sets `frame.rsv1` and `frame.payload`) return a new frame. Aliasing of the frame is not modelled.
- Handshakes.LastNamed: `dict((e.name, e) …)` keeps the last extension of a name. The model states this but not the dict's hashing.
- Deflate.DeflateHook.Deflate: the `Z_DEFAULT_COMPRESSION` level and the raw-deflate window sign are arguments of the abstract zlib, not checked.
- Dict iteration order: a Python 2 dict iterates in hash order, not insertion order. The model fixes insertion order. This decides the order of `params.items()` in the parameter text (handshake.py:399), of `defaults.keys()` in the unknown-key check (extension.py:11), and so which unknown key Extensions.FirstUnknown reports. Dicts.SetKeys states the order the model keeps, not Python's.
- ClientHandshakes.ClientHandshake.HandleRedirect: the reconnect is modelled as succeeding. As written it fails for any changed address (see "## Findings"), and the socket is not modelled.
- Handshakes.HooksOf: as written, `ext.Hook(**params)` (handshake.py:157) omits the extension argument, so a deflate-frame hook raises TypeError. The model builds the corrected hook from the extension and its parameters.
- ClientHandshakes.AdoptExtensions: as written, `supported_ext[name].Hook(**params)` (handshake.py:251) raises TypeError for deflate-frame in the same way. The model builds the corrected hook.
- Strings.Lower: it lowers only A-Z. The header text is unicode (decoded at handshake.py:55 and websocket.py:162/294), and `lower()` at handshake.py:109/112/227/230 and websocket.py:191/194/342/345 folds every cased character, e.g. U+212A KELVIN SIGN to 'k'. The model treats header text as ASCII.
- Strings.Strip: it removes only ASCII whitespace. `strip()` on the unicode values at handshake.py:163/234/293 and websocket.py:225/316/349 also removes other whitespace, e.g. U+00A0.
- Strings.SplitStripped: it is total. `str(value)` at handshake.py:361 and websocket.py:18 raises UnicodeEncodeError for any non-ASCII header value. On the server this error at handshake.py:132 (Sec-WebSocket-Protocol) and handshake.py:147 (Sec-WebSocket-Extensions) is not a HandshakeError, so it escapes `fail()`. Handshakes.SelectProtocol, Handshakes.CollectOffers and Handshakes.ServerResponse therefore answer requests with non-ASCII protocol or extension text that the source aborts.
- Deflate.DeflateHookSettings: it refuses a non-int max_window_bits when the hook is made. The source reads it at hook creation only without no_context_takeover (deflate_frame.py:42-45). With the flag set, the error comes at the first `deflate` (deflate_frame.py:68-70). The settings hold an int window size, so this later error is not modelled.
- Deflate.DeflateHook.Deflate: under no_context_takeover each payload is a finished stream followed by a zero byte (deflate_frame.py:68-74). The abstract zlib leaves this path unconstrained, so no lemma relates it to what the receiver's `inflate` (deflate_frame.py:81-84) recovers. On real zlib the bytes after the final block would land in `unused_data`. Deflate.DeflateInflateRoundTrip covers context takeover only.
- Extensions.CreateHook: Python's `setattr` of each parameter on the hook object is modelled as the hook's parameter dict.

## Findings

| source | as written | input that shows it | evidently intended | confidence | as-written member | corrected member |
|---|---|---|---|---|---|---|
| frame.py:69 | `pack` reads `self.fin`, but the constructor sets `self.final` | any frame, e.g. an empty TEXT frame | the FIN bit from `final` | not executed | Frames.PackAsWritten | Frames.Pack |
| frame.py:152-162 | a local `mask` flag hides the function `mask()`, and `struct.unpack` returns a tuple that is passed on as a length | a masked frame, or one with a payload of 126 bytes or more | unmask with `mask()` and read the first item of the tuple | not executed | Frames.DecodeAsWrittenFails | Frames.DecodePack |
| message.py:30 | `super(TextMessage, self)` in `BinaryMessage` | `BinaryMessage("x")` | `super(BinaryMessage, self)` | not executed | Messages.NewBinaryMessageAsWritten | Messages.NewBinaryMessage |
| message.py:41 | `OPCODE_CLASS_MAP(payload)` calls the dict | `create_message(OPCODE_TEXT, "x")` | `OPCODE_CLASS_MAP[opcode](payload)` | not executed | Messages.CreateMessageAsWrittenFailsOnData | Messages.CreateMessage |
| connection.py:61 | `message.frame(mask=mask)`, but `frame()` takes no argument | `send(m)` without a fragment size | a frame masked when asked | not executed | Connections.UnfragmentedSendAsWrittenFails | Connections.MessageToFrames |
| connection.py:235 | `insert(-1, send)` puts a new send hook before the last one | three send hooks added in turn without `prepend` | append the hook | not executed | Connections.AddHookAsWrittenMisorders | Connections.Connection.AddHook |
| deflate_frame.py:40-41 | `create_hook` calls `self.Hook(**params)` without `extension`, which the constructor then passes to a base that takes only keywords. The handshakes make hooks the same way, with `ext.Hook(**params)` at handshake.py:157 and 251 | creating a hook of `DeflateFrame()` | a hook made with its extension and parameters | not executed | Deflate.DeflateCreateHookAsWritten | Deflate.DeflateHookOfDefaults |
| handshake.py:385 | `parse_param_hdr` yields its pair, but callers unpack it as a pair | any extension entry, e.g. "deflate-frame" | return the pair | not executed | ParamHeaders.UnpackParamHdrAsWritten | ParamHeaders.ParamHdrRoundTrip |
| handshake.py:400 | parameters are joined by ", ", the same separator as the extension list. The reader splits the parameters of an entry at ',' too (handshake.py:373), so they cannot be told apart from further entries | extension x with flags a and b | parameters separated by ";", both when written (handshake.py:400) and when read (handshake.py:373) | not executed | ParamHeaders.ParamsSplitAcrossEntries | ParamHeaders.ExtensionsHeaderRoundTrip |
| handshake.py:156 | `zip` pairs the filtered extensions with the parameters of all offers | offers a, b (x=1) and c, where b clashes with a | each kept extension with its own parameters | not executed | Handshakes.ZipMisalignsParams | Handshakes.NegotiatedHooks |
| handshake.py:297 | a ClientHandshake reads `self.secure`, which it does not have, and the address uses `netloc`, which keeps the port | a Location "ws://example.com/chat" | the websocket's `secure`, and the host name | not executed | ClientHandshakes.PortlessRedirect | ClientHandshakes.RedirectAddress |
| handshake.py:301-303 | when the address changed, `close()` and then `connect()` on the same socket object, which a closed socket refuses with EBADF. The `netloc` is never the numeric peer name, so every redirect that gets this far changes the address | a Location "ws://example.com:8080/chat" while connected to 93.184.216.34:8080 | open a new socket to the new address | not executed | ClientHandshakes.NamedRedirectFails | ClientHandshakes.ClientHandshake.HandleRedirect |
| connection.py:191 | `self.sock.shutdown(socket.SHUT_WR)`, but `self.sock` is a `websocket`, which has no `shutdown` and no `__getattr__` | `close()` on an open connection that has received no CLOSE | shut down writing on the websocket's own socket | not executed | Connections.CloseAsWritten | Connections.Connection.ShutdownWrite |
| websocket.py:319-320 | assigning `url.port` on a parsed URL, whose attributes are read-only | a Location without a port | the default port for the scheme | not executed | WebSockets.PortlessTargetFails | ClientHandshakes.RedirectAddress |
| websocket.py:212 | the offered protocols are read from Sec-WebSocket-Extensions | a request offering a supported protocol p and no extensions | read Sec-WebSocket-Protocol | not executed | WebSockets.ProtocolReadFromExtensions | WebSockets.FirstProtocol |
