/**
 * The connection layer of connection.py: a `Connection` sends messages as
 * frames (after the send hooks), collects data frames into messages (before
 * the receive hooks) and answers control frames as RFC 6455 asks: a PING
 * gets a PONG with the same payload, a PONG must answer an outstanding PING,
 * and a CLOSE is echoed once and ends the connection.
 *
 * The socket is modelled by two frame logs: `incoming`, the frames it will
 * still deliver, and `sent`, the frames written to it so far. Byte-level
 * framing is Frames.Pack and Frames.Decode.
 */
module Connections {
  import opened Errors
  import opened Octets
  import opened Bytes
  import opened Frames
  import opened Messages

  /** A send or receive hook: a function from message to message. */
  type Hook = Message -> Message

  /** A pair given to `add_hook`: either hook may be missing. */
  type HookPair = (Option<Hook>, Option<Hook>)

  /** 16-bit unsigned values, such as a close status code. */
  type u16 = x: nat | x < 0x1_0000

  /** The state of the underlying TCP socket. */
  datatype SocketState = Open | WriteShutdown | Closed

  /**
   * What `sendall` does on a socket in this state: it writes on an open
   * socket, fails with EPIPE once writing is shut down and with EBADF once
   * the socket is closed.
   */
  function WriteOutcome(s: SocketState): (r: Result<()>)
    ensures r.Ok? <==> s == Open
    ensures s == Closed ==> r == Err(BadFileDescriptor)
    ensures s == WriteShutdown ==> r == Err(BrokenPipe)
  {
    match s
    case Open => Ok(())
    case WriteShutdown => Err(BrokenPipe)
    case Closed => Err(BadFileDescriptor)
  }

  /** The `on*` handlers, as a log of the calls made to them. */
  datatype Event =
    | OnOpen
    | OnPing(payload: seq<byte>)
    | OnPong(payload: seq<byte>)
    | OnClose(code: Option<u16>, reason: seq<byte>)

  /** The status code and reason carried by a CLOSE frame. */
  datatype CloseParams = CloseParams(code: Option<u16>, reason: seq<byte>)

  // ---------------------------------------------------------------------
  // CLOSE payloads (section 5.5.1 of RFC 6455)
  // ---------------------------------------------------------------------

  /**
   * `create_close_frame(code, reason)`'s payload: no code gives an empty
   * body, otherwise the code as two big-endian bytes followed by the reason.
   */
  function ClosePayload(p: CloseParams): (r: seq<byte>)
    ensures p.code.None? ==> r == []
    ensures p.code.Some? ==> |r| == 2 + |p.reason| && r[2..] == p.reason
  {
    match p.code
    case None => []
    case Some(c) => BigEndian(c, 2) + p.reason
  }

  /** `Frame.unpack_close()`: a body shorter than two bytes carries no code. */
  function UnpackClose(payload: seq<byte>): (p: CloseParams)
    ensures p.code.None? <==> |payload| < 2
    ensures p.code.None? ==> p.reason == []
    ensures p.code.Some? ==> p.reason == payload[2..]
  {
    if |payload| < 2 then CloseParams(None, [])
    else
      var c := FromBigEndian(payload[..2]);
      assert Pow256(2) == 0x1_0000 by { assert Pow256(0) == 1; }
      CloseParams(Some(c), payload[2..])
  }

  /** A close frame: final, unmasked, opcode CLOSE. */
  function CloseFrame(p: CloseParams): (f: Frame)
    ensures f.opcode == CLOSE && f.final && f.maskingKey == []
    ensures f.payload == ClosePayload(p)
  {
    SimpleFrame(CLOSE, ClosePayload(p))
  }

  /** The PONG answering a PING with `payload`. */
  function PongFrame(payload: seq<byte>): (f: Frame)
    ensures f.opcode == PONG && f.final && f.maskingKey == [] && f.payload == payload
  {
    SimpleFrame(PONG, payload)
  }

  /** Unpacking a close payload gives back the code and reason it was made from. */
  lemma {:induction false} UnpackClosePayload(p: CloseParams)
    requires p.code.None? ==> p.reason == []
    ensures UnpackClose(ClosePayload(p)) == p
  {
    match p.code
    case None =>
    case Some(c) =>
      var body := ClosePayload(p);
      assert body[..2] == BigEndian(c, 2);
      assert Pow256(2) == 0x1_0000 by { assert Pow256(0) == 1; }
      BigEndianRoundTrip(c, 2);
  }

  /** A CLOSE echoed with the unpacked parameters carries the same code and reason. */
  lemma EchoedCloseAgrees(payload: seq<byte>)
    ensures UnpackClose(CloseFrame(UnpackClose(payload)).payload) == UnpackClose(payload)
  {
    UnpackClosePayload(UnpackClose(payload));
  }

  // ---------------------------------------------------------------------
  // Hooks, framing and reassembly
  // ---------------------------------------------------------------------

  /** Apply the hooks in list order, each to the result of the one before. */
  function ApplyHooks(hooks: seq<Hook>, m: Message): Message
    decreases |hooks|
  {
    if hooks == [] then m else ApplyHooks(hooks[1..], hooks[0](m))
  }

  /** Applying `a + b` is applying `a`, then `b`. */
  lemma {:induction false} ApplyHooksAppend(a: seq<Hook>, b: seq<Hook>, m: Message)
    ensures ApplyHooks(a + b, m) == ApplyHooks(b, ApplyHooks(a, m))
    decreases |a|
  {
    if a == [] {
      assert a + b == b;
    } else {
      assert (a + b)[1..] == a[1..] + b;
      ApplyHooksAppend(a[1..], b, a[0](m));
    }
  }

  /**
   * `message_to_frames`: the hooked message as one frame, masked with the
   * first key when `mask` is set, or as its fragments of at most `size` bytes.
   */
  function MessageToFrames(hooks: seq<Hook>, m: Message, size: Option<int>, mask: bool,
                           keys: nat -> Key): (r: Result<seq<Frame>>)
    ensures size.None? ==> r.Ok? && |r.value| == 1 && r.value[0].final
    ensures size.None? ==> r.value[0].payload == ApplyHooks(hooks, m).payload
    ensures size.None? ==> r.value[0].opcode == ApplyHooks(hooks, m).opcode
    ensures size.None? ==> (r.value[0].maskingKey == [] <==> !mask)
    ensures size.Some? ==>
      (r.Ok? <==> size.value > 0 && |ApplyHooks(hooks, m).payload| > 0)
  {
    var h := ApplyHooks(hooks, m);
    match size
    case None =>
      var f := ToFrame(h);
      Ok([if mask then f.(maskingKey := keys(0)) else f])
    case Some(n) =>
      ToFragmentsProperties(h, n, mask, keys);
      ToFragments(h, n, mask, keys)
  }

  /**
   * `message_to_frames` as written: `message.frame(mask=mask)` passes a
   * keyword `Message.frame` does not take, a TypeError whenever no fragment
   * size is given.
   */
  function MessageToFramesAsWritten(hooks: seq<Hook>, m: Message, size: Option<int>, mask: bool,
                                    keys: nat -> Key): (r: Result<seq<Frame>>)
    ensures size.None? ==> r.Err?
    ensures size.Some? ==> r == MessageToFrames(hooks, m, size, mask, keys)
  {
    if size.None? then Err(TypeError("frame() got an unexpected keyword argument 'mask'"))
    else MessageToFrames(hooks, m, size, mask, keys)
  }

  /** As written, an unfragmented send always fails; corrected, it yields one final frame. */
  lemma UnfragmentedSendAsWrittenFails(hooks: seq<Hook>, m: Message, mask: bool, keys: nat -> Key)
    ensures MessageToFramesAsWritten(hooks, m, None, mask, keys).Err?
    ensures MessageToFrames(hooks, m, None, mask, keys).Ok?
  {
  }

  /** `concat_fragments`: join the payloads, pick the class by the first opcode, then hook. */
  function ConcatFragments(hooks: seq<Hook>, fragments: seq<Frame>): Message
    requires |fragments| > 0
  {
    ApplyHooks(hooks, CreateMessage(fragments[0].opcode, Concat(Payloads(fragments))))
  }

  /** Without hooks, reassembly keeps the first opcode and concatenates the payloads. */
  lemma ConcatFragmentsPlain(fragments: seq<Frame>)
    requires |fragments| > 0
    ensures ConcatFragments([], fragments).opcode == fragments[0].opcode
    ensures ConcatFragments([], fragments).payload == Concat(Payloads(fragments))
  {
  }

  /** A message is canonical when its class is the one its opcode selects. */
  ghost predicate Canonical(m: Message)
  {
    m == CreateMessage(m.opcode, m.payload)
  }

  /**
   * Framing a canonical message and reassembling the frames gives the
   * message back, fragmented or not.
   */
  lemma FramingRoundTrip(m: Message, size: Option<int>, mask: bool, keys: nat -> Key)
    requires Canonical(m)
    requires MessageToFrames([], m, size, mask, keys).Ok?
    ensures ConcatFragments([], MessageToFrames([], m, size, mask, keys).value) == m
  {
    var fs := MessageToFrames([], m, size, mask, keys).value;
    match size
    case None =>
      assert Payloads(fs) == [m.payload];
      assert Concat(Payloads(fs)) == m.payload by {
        assert Concat([m.payload]) == m.payload + Concat([]);
      }
    case Some(n) =>
      ToFragmentsProperties(m, n, mask, keys);
  }

  // ---------------------------------------------------------------------
  // add_hook
  // ---------------------------------------------------------------------

  /** The hook an optional argument to `add_hook` contributes: none or one. */
  function Hooks(h: Option<Hook>): (r: seq<Hook>)
    ensures |r| == if h.Some? then 1 else 0
  {
    if h.Some? then [h.value] else []
  }

  /** The send hooks of a sequence of pairs: in order. */
  function SendOrder(pairs: seq<HookPair>): (r: seq<Hook>)
    ensures |r| <= |pairs|
  {
    if pairs == [] then [] else Hooks(pairs[0].0) + SendOrder(pairs[1..])
  }

  /** The receive hooks of a sequence of pairs: in reverse order. */
  function RecvOrder(pairs: seq<HookPair>): (r: seq<Hook>)
    ensures |r| <= |pairs|
  {
    if pairs == [] then [] else RecvOrder(pairs[1..]) + Hooks(pairs[0].1)
  }

  /** The pairs after `add_hook`: the new pair innermost when prepended, outermost otherwise. */
  function WithPair(pairs: seq<HookPair>, p: HookPair, prepend: bool): (r: seq<HookPair>)
    ensures |r| == |pairs| + 1
  {
    if prepend then [p] + pairs else pairs + [p]
  }

  lemma {:induction false} SendOrderAppend(pairs: seq<HookPair>, p: HookPair)
    ensures SendOrder(pairs + [p]) == SendOrder(pairs) + Hooks(p.0)
    decreases |pairs|
  {
    if pairs != [] {
      assert (pairs + [p])[1..] == pairs[1..] + [p];
      SendOrderAppend(pairs[1..], p);
    } else {
      assert pairs + [p] == [p];
      assert [p][1..] == [];
    }
  }

  lemma {:induction false} RecvOrderAppend(pairs: seq<HookPair>, p: HookPair)
    ensures RecvOrder(pairs + [p]) == Hooks(p.1) + RecvOrder(pairs)
    decreases |pairs|
  {
    if pairs != [] {
      assert (pairs + [p])[1..] == pairs[1..] + [p];
      RecvOrderAppend(pairs[1..], p);
    } else {
      assert pairs + [p] == [p];
      assert [p][1..] == [];
    }
  }

  /**
   * Adding a pair puts its send hook at the same end of the send order as
   * the pair, and its receive hook at the other end of the receive order.
   */
  lemma WithPairOrders(pairs: seq<HookPair>, p: HookPair, prepend: bool)
    ensures SendOrder(WithPair(pairs, p, prepend))
      == if prepend then Hooks(p.0) + SendOrder(pairs) else SendOrder(pairs) + Hooks(p.0)
    ensures RecvOrder(WithPair(pairs, p, prepend))
      == if prepend then RecvOrder(pairs) + Hooks(p.1) else Hooks(p.1) + RecvOrder(pairs)
  {
    if prepend {
      assert ([p] + pairs)[1..] == pairs;
    } else {
      SendOrderAppend(pairs, p);
      RecvOrderAppend(pairs, p);
    }
  }

  /** Each pair has both hooks and its receive hook undoes its send hook. */
  ghost predicate InversePairs(pairs: seq<HookPair>)
  {
    forall i :: 0 <= i < |pairs| ==>
      pairs[i].0.Some? && pairs[i].1.Some? &&
      forall x: Message {:trigger pairs[i].0.value(x)} :: pairs[i].1.value(pairs[i].0.value(x)) == x
  }

  /**
   * The ordering `add_hook` is meant to keep: with pairs of inverse hooks,
   * the receive hooks undo the send hooks, innermost pair first.
   */
  lemma {:induction false} HooksInverse(pairs: seq<HookPair>, m: Message)
    requires InversePairs(pairs)
    ensures ApplyHooks(RecvOrder(pairs), ApplyHooks(SendOrder(pairs), m)) == m
    decreases |pairs|
  {
    if pairs != [] {
      var s, r := pairs[0].0.value, pairs[0].1.value;
      var rest := pairs[1..];
      assert InversePairs(rest) by {
        forall i | 0 <= i < |rest|
          ensures rest[i].0.Some? && rest[i].1.Some?
          ensures forall x: Message {:trigger rest[i].0.value(x)} :: rest[i].1.value(rest[i].0.value(x)) == x
        {
          assert rest[i] == pairs[i + 1];
        }
      }
      assert SendOrder(pairs) == [s] + SendOrder(rest);
      assert RecvOrder(pairs) == RecvOrder(rest) + [r];
      ApplyHooksAppend(RecvOrder(rest), [r], ApplyHooks(SendOrder(rest), s(m)));
      HooksInverse(rest, s(m));
      assert ApplyHooks([s] + SendOrder(rest), m) == ApplyHooks(SendOrder(rest), s(m)) by {
        assert ([s] + SendOrder(rest))[1..] == SendOrder(rest);
      }
      assert ApplyHooks([r], s(m)) == r(s(m));
      assert r(s(m)) == m by { assert pairs[0].1.value(pairs[0].0.value(m)) == m; }
    }
  }

  /**
   * Hooks installed by the corrected `add_hook`, framing and reassembly
   * together: a message whose hooked form is canonical arrives as it was sent.
   */
  lemma ExchangeRoundTrip(pairs: seq<HookPair>, m: Message, size: Option<int>, mask: bool,
                          keys: nat -> Key)
    requires InversePairs(pairs)
    requires Canonical(ApplyHooks(SendOrder(pairs), m))
    requires MessageToFrames(SendOrder(pairs), m, size, mask, keys).Ok?
    ensures ConcatFragments(RecvOrder(pairs), MessageToFrames(SendOrder(pairs), m, size, mask, keys).value) == m
  {
    var h := ApplyHooks(SendOrder(pairs), m);
    var fs := MessageToFrames(SendOrder(pairs), m, size, mask, keys).value;
    assert MessageToFrames([], h, size, mask, keys) == MessageToFrames(SendOrder(pairs), m, size, mask, keys);
    FramingRoundTrip(h, size, mask, keys);
    HooksInverse(pairs, m);
  }

  /**
   * Python's `list.insert(i, x)`: a negative index counts from the end and
   * is clamped at the front; an index past the end appends.
   */
  function PyInsert<T>(l: seq<T>, i: int, x: T): (r: seq<T>)
    ensures |r| == |l| + 1
    ensures var j := if i < 0 then (if i + |l| < 0 then 0 else i + |l|) else if i > |l| then |l| else i;
      r[..j] == l[..j] && r[j] == x && r[j + 1..] == l[j..]
  {
    var j := if i < 0 then (if i + |l| < 0 then 0 else i + |l|) else if i > |l| then |l| else i;
    l[..j] + [x] + l[j..]
  }

  /** `add_hook` as written: `insert(-1, ...)` puts the hook before the last one, not at the end. */
  function AddHookAsWritten(send: seq<Hook>, recv: seq<Hook>, s: Option<Hook>, r: Option<Hook>,
                            prepend: bool): (hs: (seq<Hook>, seq<Hook>))
    ensures |hs.0| == |send| + (if s.Some? then 1 else 0) && |hs.1| == |recv| + (if r.Some? then 1 else 0)
    ensures s.Some? && !prepend && |send| > 0 ==> hs.0 == send[..|send| - 1] + [s.value] + [send[|send| - 1]]
    ensures s.Some? && prepend ==> hs.0 == [s.value] + send
    ensures r.Some? && !prepend ==> hs.1 == [r.value] + recv
  {
    (if s.Some? then PyInsert(send, if prepend then 0 else -1, s.value) else send,
     if r.Some? then PyInsert(recv, if prepend then -1 else 0, r.value) else recv)
  }

  /**
   * Appending three send hooks with `insert(-1, ...)` leaves them as 2, 3, 1:
   * the third hook added runs second, and the receive list 3, 2, 1 is not the
   * reverse of the send list.
   */
  lemma AddHookAsWrittenMisorders(h1: Hook, h2: Hook, h3: Hook)
    ensures var s1 := AddHookAsWritten([], [], Some(h1), Some(h1), false);
      var s2 := AddHookAsWritten(s1.0, s1.1, Some(h2), Some(h2), false);
      var s3 := AddHookAsWritten(s2.0, s2.1, Some(h3), Some(h3), false);
      s3.0 == [h2, h3, h1] && s3.1 == [h3, h2, h1]
  {
    assert PyInsert([], -1, h1) == [h1];
    assert PyInsert([], 0, h1) == [h1];
    var s1 := AddHookAsWritten([], [], Some(h1), Some(h1), false);
    assert s1 == ([h1], [h1]);
    assert PyInsert([h1], -1, h2) == [h2, h1];
    assert PyInsert([h1], 0, h2) == [h2, h1];
    var s2 := AddHookAsWritten(s1.0, s1.1, Some(h2), Some(h2), false);
    assert s2 == ([h2, h1], [h2, h1]);
    assert PyInsert([h2, h1], -1, h3) == [h2, h3, h1];
    assert PyInsert([h2, h1], 0, h3) == [h3, h2, h1];
  }

  // ---------------------------------------------------------------------
  // Receiving: specification of what one call to `recv` reads
  // ---------------------------------------------------------------------

  /** The data frames among `fs`, in order. */
  function DataFrames(fs: seq<Frame>): (r: seq<Frame>)
    ensures |r| <= |fs|
  {
    if fs == [] then []
    else DataFrames(fs[..|fs| - 1]) + (if IsControl(fs[|fs| - 1].opcode) then [] else [fs[|fs| - 1]])
  }

  /** The PONGs that answer the PINGs among `fs`, in order. */
  function PongsFor(fs: seq<Frame>): (r: seq<Frame>)
    ensures |r| <= |fs|
  {
    if fs == [] then []
    else PongsFor(fs[..|fs| - 1]) + (if fs[|fs| - 1].opcode == PING then [PongFrame(fs[|fs| - 1].payload)] else [])
  }

  /**
   * A chain of fragments `recv` may return: the first frame opens it, every
   * later one is a continuation, and only the last is final.
   */
  ghost predicate FragmentChain(fs: seq<Frame>)
  {
    |fs| > 0 && fs[|fs| - 1].final && OpenChain(fs)
  }

  /** A chain still being collected: no frame but the last may be final, every later one continues. */
  ghost predicate OpenChain(fs: seq<Frame>)
  {
    && (forall i :: 0 <= i < |fs| - 1 ==> !fs[i].final)
    && (forall i :: 1 <= i < |fs| ==> fs[i].opcode == CONTINUATION)
  }

  // ---------------------------------------------------------------------
  // Closing, as written
  // ---------------------------------------------------------------------

  /**
   * `shutdown_write` as written. `self.sock` is a `websocket`, and that class
   * has no `shutdown`, so when no CLOSE has been received the call raises
   * AttributeError. After a received CLOSE it behaves as intended.
   */
  function ShutdownWriteAsWritten(closeReceived: bool, params: Option<CloseParams>): (r: Result<()>)
    ensures r.Err?
    ensures !closeReceived ==> r == Err(AttributeMissing("shutdown"))
    ensures closeReceived && params.Some? ==> r == Err(SocketClosed(Some(false)))
  {
    if !closeReceived then Err(AttributeMissing("shutdown"))
    else if params.None? then Err(AttributeMissing("close_params"))
    else Err(SocketClosed(Some(false)))
  }

  /**
   * `close` as written, on a connection whose socket is in state `socket`:
   * its outcome and the frames left unread. The CLOSE cannot be written on
   * a socket that is no longer open. On an open socket it is written, and
   * then `shutdown_write` raises, so the peer's CLOSE is never read.
   */
  function CloseAsWritten(socket: SocketState, closeReceived: bool, params: Option<CloseParams>,
                          incoming: seq<Frame>): (r: (Result<()>, seq<Frame>))
    ensures r.0.Err? && r.1 == incoming
    ensures socket == Open && !closeReceived ==> r.0 == Err(AttributeMissing("shutdown"))
    ensures socket != Open ==> r.0 == WriteOutcome(socket)
  {
    if socket != Open then (WriteOutcome(socket), incoming)
    else (ShutdownWriteAsWritten(closeReceived, params), incoming)
  }

  // ---------------------------------------------------------------------
  // The connection
  // ---------------------------------------------------------------------

  class Connection {
    /** Frames the socket will still deliver; `received` are the ones delivered. */
    var incoming: seq<Frame>
    ghost var received: seq<Frame>
    ghost const stream: seq<Frame>
    /** Frames written to the socket, in order. */
    var sent: seq<Frame>
    var socket: SocketState
    var events: seq<Event>

    var closeFrameSent: bool
    var closeFrameReceived: bool
    var pingSent: bool
    var pingPayload: Option<seq<byte>>
    var closeParams: Option<CloseParams>

    var hooksSend: seq<Hook>
    var hooksRecv: seq<Hook>
    /** The pairs `add_hook` was given, innermost first. */
    ghost var hookPairs: seq<HookPair>

    /**
     * The socket is shut for writing once a CLOSE is sent and closed once
     * one is also received; a CLOSE received before one is sent has its
     * parameters kept for the echo; an outstanding PING has a payload; the
     * hook lists are the send and receive orders of the pairs added.
     */
    ghost predicate Valid()
      reads this
    {
      && received + incoming == stream
      && (closeFrameReceived && !closeFrameSent ==> closeParams.Some?)
      && socket == (if !closeFrameSent then Open else if closeFrameReceived then Closed else WriteShutdown)
      && (pingSent ==> pingPayload.Some?)
      && hooksSend == SendOrder(hookPairs)
      && hooksRecv == RecvOrder(hookPairs)
    }

    /** `Connection(sock)`: a fresh connection over a socket that will deliver `frames`. */
    constructor(frames: seq<Frame>)
      ensures Valid()
      ensures incoming == frames && received == [] && sent == []
      ensures socket == Open && events == [OnOpen]
      ensures !closeFrameSent && !closeFrameReceived && !pingSent
      ensures pingPayload == None && closeParams == None
      ensures hooksSend == [] && hooksRecv == [] && hookPairs == []
    {
      incoming := frames;
      received := [];
      stream := frames;
      sent := [];
      socket := Open;
      events := [OnOpen];
      closeFrameSent := false;
      closeFrameReceived := false;
      pingSent := false;
      pingPayload := None;
      closeParams := None;
      hooksSend := [];
      hooksRecv := [];
      hookPairs := [];
    }

    /** `sock.recv()`: the next frame, or SocketClosed when the peer has gone. */
    method ReadFrame() returns (r: Result<Frame>)
      requires Valid()
      modifies this`incoming, this`received
      ensures Valid()
      ensures old(incoming) == [] ==> r == Err(SocketClosed(None)) && incoming == [] && received == old(received)
      ensures old(incoming) != [] ==> (r == Ok(old(incoming)[0]) && incoming == old(incoming)[1..]
        && received == old(received) + [old(incoming)[0]])
    {
      if incoming == [] {
        return Err(SocketClosed(None));
      }
      r := Ok(incoming[0]);
      received := received + [incoming[0]];
      incoming := incoming[1..];
      assert received + incoming == old(received) + old(incoming);
    }

    /** `send_frame(frame)`: the frame is written when the socket is open; otherwise `sendall` raises. */
    method SendFrame(f: Frame) returns (r: Result<()>)
      modifies this`sent
      ensures r == WriteOutcome(socket)
      ensures sent == if r.Ok? then old(sent) + [f] else old(sent)
    {
      r := WriteOutcome(socket);
      if r.Ok? {
        sent := sent + [f];
      }
    }

    /**
     * `send(message, fragment_size, mask)`: the frames of the hooked message,
     * all of them or none when framing fails.
     */
    method Send(m: Message, size: Option<int>, mask: bool, keys: nat -> Key) returns (r: Result<()>)
      modifies this`sent
      ensures var fs := MessageToFrames(hooksSend, m, size, mask, keys);
        && (r.Ok? <==> fs.Ok? && (socket == Open || fs.value == []))
        && (fs.Err? ==> r == Err(fs.error) && sent == old(sent))
        && (fs.Ok? && (socket == Open || fs.value == []) ==> sent == old(sent) + fs.value)
        && (fs.Ok? && socket != Open && fs.value != [] ==> r == WriteOutcome(socket) && sent == old(sent))
    {
      var fs := MessageToFrames(hooksSend, m, size, mask, keys);
      if fs.Err? {
        return Err(fs.error);
      }
      var i := 0;
      while i < |fs.value|
        invariant 0 <= i <= |fs.value|
        invariant sent == old(sent) + fs.value[..i]
        invariant socket != Open ==> i == 0
      {
        var w := SendFrame(fs.value[i]);
        if w.Err? {
          return w;
        }
        assert fs.value[..i + 1] == fs.value[..i] + [fs.value[i]];
        i := i + 1;
      }
      assert fs.value[..i] == fs.value;
      return Ok(());
    }

    /**
     * `shutdown_write()` as intended: after a received CLOSE the socket
     * closes, otherwise only writing stops (the `shutdown` of the websocket's
     * own socket; see ShutdownWriteAsWritten). The parameters of the received CLOSE are kept only
     * when it came first, so after an orderly close they are missing.
     */
    method ShutdownWrite() returns (r: Result<()>)
      modifies this`socket, this`events
      ensures old(closeFrameReceived) && closeParams.Some? ==> (r == Err(SocketClosed(Some(false)))
        && socket == Closed && events == old(events) + [OnClose(closeParams.value.code, closeParams.value.reason)])
      ensures old(closeFrameReceived) && closeParams.None? ==> (r == Err(AttributeMissing("close_params"))
        && socket == old(socket) && events == old(events))
      ensures !old(closeFrameReceived) ==> r == Ok(()) && socket == WriteShutdown && events == old(events)
    {
      if closeFrameReceived {
        if closeParams.None? {
          return Err(AttributeMissing("close_params"));
        }
        events := events + [OnClose(closeParams.value.code, closeParams.value.reason)];
        socket := Closed;
        return Err(SocketClosed(Some(false)));
      }
      socket := WriteShutdown;
      return Ok(());
    }

    /**
     * `send_close_frame(code, reason)`: send a CLOSE, then shut the socket for
     * writing. On a socket that is no longer open the write raises and
     * nothing changes. An open socket has sent no CLOSE yet, so a CLOSE
     * already received has its parameters kept for `shutdown_write`.
     */
    method SendCloseFrame(p: CloseParams) returns (r: Result<()>)
      requires Valid()
      modifies this`sent, this`closeFrameSent, this`socket, this`events
      ensures Valid()
      ensures old(socket) != Open ==> (r == WriteOutcome(old(socket)) && sent == old(sent)
        && closeFrameSent == old(closeFrameSent) && socket == old(socket) && events == old(events))
      ensures old(socket) == Open ==> sent == old(sent) + [CloseFrame(p)] && closeFrameSent
      ensures old(socket) == Open && closeFrameReceived ==> (closeParams.Some? && r == Err(SocketClosed(Some(false)))
        && socket == Closed && events == old(events) + [OnClose(closeParams.value.code, closeParams.value.reason)])
      ensures old(socket) == Open && !closeFrameReceived ==> r == Ok(()) && socket == WriteShutdown && events == old(events)
    {
      r := SendFrame(CloseFrame(p));
      if r.Err? {
        return;
      }
      closeFrameSent := true;
      r := ShutdownWrite();
    }

    /**
     * `send_ping(payload)`: send a PING and remember its payload. When the
     * write raises, `onping` does not run and nothing is remembered.
     */
    method SendPing(payload: seq<byte>) returns (r: Result<()>)
      requires Valid()
      modifies this`sent, this`events, this`pingSent, this`pingPayload
      ensures Valid()
      ensures r == WriteOutcome(socket)
      ensures r.Ok? ==> (sent == old(sent) + [SimpleFrame(PING, payload)]
        && events == old(events) + [OnPing(payload)]
        && pingSent && pingPayload == Some(payload))
      ensures r.Err? ==> (sent == old(sent) && events == old(events)
        && pingSent == old(pingSent) && pingPayload == old(pingPayload))
    {
      r := SendFrame(SimpleFrame(PING, payload));
      if r.Err? {
        return;
      }
      events := events + [OnPing(payload)];
      pingPayload := Some(payload);
      pingSent := true;
    }

    /**
     * `handle_control_frame(frame)`. A CLOSE always ends in SocketClosed:
     * `true` when it answers our own CLOSE, `false` after echoing it. A PING
     * is answered with a PONG of the same payload. A PONG must match the
     * outstanding PING. Other control opcodes are ignored.
     */
    method HandleControlFrame(f: Frame) returns (r: Result<()>)
      requires Valid() && IsControl(f.opcode)
      modifies this`sent, this`socket, this`events, this`closeFrameSent, this`closeFrameReceived,
        this`closeParams, this`pingSent, this`pingPayload
      ensures Valid()
      ensures f.opcode == CLOSE ==> (closeFrameReceived && closeFrameSent && socket == Closed
        && events == old(events) + [OnClose(UnpackClose(f.payload).code, UnpackClose(f.payload).reason)]
        && pingSent == old(pingSent) && pingPayload == old(pingPayload))
      ensures f.opcode == CLOSE && old(closeFrameSent) ==>
        r == Err(SocketClosed(Some(true))) && sent == old(sent) && closeParams == old(closeParams)
      ensures f.opcode == CLOSE && !old(closeFrameSent) ==>
        r == Err(SocketClosed(Some(false))) && closeParams == Some(UnpackClose(f.payload))
        && sent == old(sent) + [CloseFrame(UnpackClose(f.payload))]
      ensures f.opcode == PING ==> (r == WriteOutcome(socket)
        && sent == old(sent) + (if r.Ok? then [PongFrame(f.payload)] else [])
        && events == old(events) && pingSent == old(pingSent) && pingPayload == old(pingPayload))
      ensures f.opcode == PONG ==> sent == old(sent) && !pingSent
      ensures f.opcode == PONG && !old(pingSent) ==> (r == Err(UnsolicitedPong)
        && events == old(events) && pingPayload == old(pingPayload))
      ensures f.opcode == PONG && old(pingSent) && old(pingPayload) != Some(f.payload) ==>
        r == Err(PongPayloadMismatch) && events == old(events) && pingPayload == old(pingPayload)
      ensures f.opcode == PONG && old(pingSent) && old(pingPayload) == Some(f.payload) ==>
        r == Ok(()) && events == old(events) + [OnPong(f.payload)] && pingPayload == None
      ensures f.opcode != CLOSE ==> (closeFrameSent == old(closeFrameSent)
        && closeFrameReceived == old(closeFrameReceived) && closeParams == old(closeParams)
        && socket == old(socket))
      ensures r.Ok? ==> (f.opcode != CLOSE && closeFrameSent == old(closeFrameSent)
        && closeFrameReceived == old(closeFrameReceived)
        && sent == old(sent) + (if f.opcode == PING then [PongFrame(f.payload)] else []))
      ensures f.opcode !in {CLOSE, PING, PONG} ==> (r == Ok(()) && sent == old(sent)
        && events == old(events) && pingSent == old(pingSent) && pingPayload == old(pingPayload))
    {
      if f.opcode == CLOSE {
        r := HandleClose(UnpackClose(f.payload));
      } else if f.opcode == PING {
        r := SendFrame(PongFrame(f.payload));
      } else if f.opcode == PONG {
        r := HandlePong(f.payload);
      } else {
        return Ok(());
      }
    }

    /** The CLOSE branch of `handle_control_frame`, with the unpacked payload. */
    method HandleClose(p: CloseParams) returns (r: Result<()>)
      requires Valid()
      modifies this`sent, this`socket, this`events, this`closeFrameSent, this`closeFrameReceived, this`closeParams
      ensures Valid()
      ensures (closeFrameReceived && closeFrameSent && socket == Closed
        && events == old(events) + [OnClose(p.code, p.reason)])
      ensures old(closeFrameSent) ==> r == Err(SocketClosed(Some(true))) && sent == old(sent) && closeParams == old(closeParams)
      ensures (!old(closeFrameSent) ==>
        r == Err(SocketClosed(Some(false))) && closeParams == Some(p) && sent == old(sent) + [CloseFrame(p)])
    {
      if closeFrameSent {
        closeFrameReceived := true;
        events := events + [OnClose(p.code, p.reason)];
        socket := Closed;
        return Err(SocketClosed(Some(true)));
      }
      closeFrameReceived := true;
      closeParams := Some(p);
      r := SendCloseFrame(p);
    }

    /** The PONG branch of `handle_control_frame`: it must answer the outstanding PING. */
    method HandlePong(payload: seq<byte>) returns (r: Result<()>)
      requires Valid()
      modifies this`events, this`pingSent, this`pingPayload
      ensures Valid()
      ensures !pingSent
      ensures !old(pingSent) ==> r == Err(UnsolicitedPong) && events == old(events) && pingPayload == old(pingPayload)
      ensures (old(pingSent) && old(pingPayload) != Some(payload) ==>
        r == Err(PongPayloadMismatch) && events == old(events) && pingPayload == old(pingPayload))
      ensures (old(pingSent) && old(pingPayload) == Some(payload) ==>
        r == Ok(()) && events == old(events) + [OnPong(payload)] && pingPayload == None)
    {
      if !pingSent {
        return Err(UnsolicitedPong);
      }
      pingSent := false;
      if Some(payload) != pingPayload {
        return Err(PongPayloadMismatch);
      }
      pingPayload := None;
      events := events + [OnPong(payload)];
      return Ok(());
    }

    /**
     * `recv()`: read frames until a final data frame completes a message.
     * Control frames read on the way are handled and left out of the
     * message; a data frame other than a continuation after the first one
     * is refused. On success, the frames read answer every PING, contain no
     * CLOSE, and their data frames form a fragment chain whose reassembly,
     * after the receive hooks, is the message returned.
     */
    method Recv() returns (r: Result<Message>, ghost read: seq<Frame>)
      requires Valid()
      modifies this`incoming, this`received, this`sent, this`socket, this`events,
        this`closeFrameSent, this`closeFrameReceived, this`closeParams, this`pingSent, this`pingPayload
      ensures Valid()
      ensures received == old(received) + read
      ensures r.Ok? ==>
        && |read| > 0 && !IsControl(read[|read| - 1].opcode)
        && FragmentChain(DataFrames(read))
        && r.value == ConcatFragments(hooksRecv, DataFrames(read))
        && sent == old(sent) + PongsFor(read)
        && (forall i :: 0 <= i < |read| ==> read[i].opcode != CLOSE)
        && closeFrameSent == old(closeFrameSent) && closeFrameReceived == old(closeFrameReceived)
      ensures r == Err(UnexpectedDataFrame) ==>
        && |read| > 0 && !IsControl(read[|read| - 1].opcode) && read[|read| - 1].opcode != CONTINUATION
        && |DataFrames(read[..|read| - 1])| > 0
    {
      var fragments: seq<Frame> := [];
      read := [];
      while fragments == [] || !fragments[|fragments| - 1].final
        invariant Valid() && received == old(received) + read && Collected(old(sent), read, fragments)
        invariant hooksRecv == old(hooksRecv)
        invariant closeFrameSent == old(closeFrameSent) && closeFrameReceived == old(closeFrameReceived)
        decreases |incoming|
      {
        var step;
        step, read := RecvStep(old(received), old(sent), read, fragments);
        if step.Err? {
          return Err(step.error), read;
        }
        fragments := step.value;
      }
      return Ok(ConcatFragments(hooksRecv, fragments)), read;
    }

    /**
     * What `recv` has done so far, counted from the frames sent before it:
     * `fragments` are the data frames among the frames it read, an open
     * chain; it has answered every PING, read no CLOSE, and a complete
     * chain ends with the last frame read.
     */
    ghost predicate Collected(sent0: seq<Frame>, read: seq<Frame>, fragments: seq<Frame>)
      reads this
    {
      sent == sent0 + PongsFor(read) && Gathered(read, fragments)
    }

    /**
     * One pass of `recv`'s loop: read a frame, then handle it when it is a
     * control frame, refuse it when it is a data frame that should have been
     * a continuation, or add it to the fragments.
     */
    method RecvStep(ghost received0: seq<Frame>, ghost sent0: seq<Frame>, ghost read: seq<Frame>,
                    fragments: seq<Frame>)
      returns (r: Result<seq<Frame>>, ghost read': seq<Frame>)
      requires Valid() && received == received0 + read && Collected(sent0, read, fragments)
      requires fragments == [] || !fragments[|fragments| - 1].final
      modifies this`incoming, this`received, this`sent, this`socket, this`events,
        this`closeFrameSent, this`closeFrameReceived, this`closeParams, this`pingSent, this`pingPayload
      ensures Valid() && received == received0 + read'
      ensures r.Ok? ==> (Collected(sent0, read', r.value) && |incoming| < |old(incoming)|
        && closeFrameSent == old(closeFrameSent) && closeFrameReceived == old(closeFrameReceived))
      ensures r == Err(UnexpectedDataFrame) ==>
        && |read'| > 0 && !IsControl(read'[|read'| - 1].opcode) && read'[|read'| - 1].opcode != CONTINUATION
        && |DataFrames(read'[..|read'| - 1])| > 0
    {
      var next := ReadFrame();
      if next.Err? {
        return Err(next.error), read;
      }
      var f := next.value;
      read' := read + [f];
      assert received == received0 + read' by {
        assert received == (received0 + read) + [f];
      }
      if IsControl(f.opcode) {
        r := ControlStep(sent0, read, fragments, f);
        return r, read';
      }
      if fragments != [] && f.opcode != CONTINUATION {
        assert read'[..|read'| - 1] == read;
        return Err(UnexpectedDataFrame), read';
      }
      GatherData(read, fragments, f);
      return Ok(fragments + [f]), read';
    }

    /** A control frame read by `recv`: handled, and the fragments are left as they are. */
    method ControlStep(ghost sent0: seq<Frame>, ghost read: seq<Frame>, fragments: seq<Frame>, f: Frame)
      returns (r: Result<seq<Frame>>)
      requires Valid() && IsControl(f.opcode) && Collected(sent0, read, fragments)
      requires fragments == [] || !fragments[|fragments| - 1].final
      modifies this`sent, this`socket, this`events, this`closeFrameSent, this`closeFrameReceived,
        this`closeParams, this`pingSent, this`pingPayload
      ensures Valid()
      ensures r.Ok? ==> (r.value == fragments && Collected(sent0, read + [f], fragments)
        && closeFrameSent == old(closeFrameSent) && closeFrameReceived == old(closeFrameReceived))
      ensures r.Err? ==> r.error != UnexpectedDataFrame
    {
      var h := HandleControlFrame(f);
      if h.Err? {
        return Err(h.error);
      }
      GatherControl(read, fragments, f);
      return Ok(fragments);
    }

    /**
     * `close(code, reason)`: send a CLOSE, then expect the peer's CLOSE.
     * It never returns normally: SocketClosed(true) is the orderly end.
     */
    method Close(p: CloseParams) returns (r: Result<()>)
      requires Valid()
      modifies this`incoming, this`received, this`sent, this`socket, this`events,
        this`closeFrameSent, this`closeFrameReceived, this`closeParams, this`pingSent, this`pingPayload
      ensures Valid()
      ensures r.Err? && closeFrameSent
      ensures old(socket) != Open ==> (r == WriteOutcome(old(socket)) && sent == old(sent)
        && socket == old(socket) && events == old(events) && incoming == old(incoming))
      ensures old(socket) == Open && old(closeFrameReceived) ==> (r == Err(SocketClosed(Some(false)))
        && sent == old(sent) + [CloseFrame(p)] && incoming == old(incoming) && socket == Closed
        && events == old(events) + [OnClose(old(closeParams).value.code, old(closeParams).value.reason)])
      ensures old(socket) == Open && !old(closeFrameReceived) && old(incoming) == [] ==> (r == Err(SocketClosed(None))
        && sent == old(sent) + [CloseFrame(p)] && events == old(events) && socket == WriteShutdown
        && incoming == [] && received == old(received))
      ensures old(socket) == Open && !old(closeFrameReceived) && old(incoming) != [] && old(incoming)[0].opcode != CLOSE ==>
        (r == Err(ExpectedCloseFrame) && socket == WriteShutdown
        && sent == old(sent) + [CloseFrame(p)] && events == old(events)
        && incoming == old(incoming)[1..] && received == old(received) + [old(incoming)[0]])
      ensures old(socket) == Open && !old(closeFrameReceived) && old(incoming) != [] && old(incoming)[0].opcode == CLOSE ==>
        r == Err(SocketClosed(Some(true))) && socket == Closed && closeFrameReceived
        && sent == old(sent) + [CloseFrame(p)]
        && events == old(events) + [OnClose(UnpackClose(old(incoming)[0].payload).code,
                                             UnpackClose(old(incoming)[0].payload).reason)]
    {
      r := SendCloseFrame(p);
      if r.Err? {
        return;
      }
      var next := ReadFrame();
      if next.Err? {
        return Err(next.error);
      }
      if next.value.opcode != CLOSE {
        return Err(ExpectedCloseFrame);
      }
      r := HandleControlFrame(next.value);
    }

    /**
     * `add_hook(send, recv, prepend)` as intended: a send hook goes to the
     * front when `prepend` is set and to the back otherwise, its receive
     * hook to the opposite end, so receive hooks stay the reverse of send
     * hooks.
     */
    method AddHook(s: Option<Hook>, rv: Option<Hook>, prepend: bool)
      requires Valid()
      modifies this`hooksSend, this`hooksRecv, this`hookPairs
      ensures Valid()
      ensures hookPairs == WithPair(old(hookPairs), (s, rv), prepend)
      ensures hooksSend == if prepend then Hooks(s) + old(hooksSend) else old(hooksSend) + Hooks(s)
      ensures hooksRecv == if prepend then old(hooksRecv) + Hooks(rv) else Hooks(rv) + old(hooksRecv)
    {
      WithPairOrders(hookPairs, (s, rv), prepend);
      hookPairs := WithPair(hookPairs, (s, rv), prepend);
      hooksSend := if prepend then Hooks(s) + hooksSend else hooksSend + Hooks(s);
      hooksRecv := if prepend then hooksRecv + Hooks(rv) else Hooks(rv) + hooksRecv;
    }
  }

  /**
   * The frames `recv` has read so far and the fragments it holds: the data
   * frames among them, an open chain; no CLOSE among them; and a complete
   * chain ends with the last frame read.
   */
  ghost predicate Gathered(read: seq<Frame>, fragments: seq<Frame>)
  {
    && fragments == DataFrames(read) && OpenChain(fragments)
    && (forall i :: 0 <= i < |read| ==> read[i].opcode != CLOSE)
    && (fragments != [] && fragments[|fragments| - 1].final ==>
          |read| > 0 && !IsControl(read[|read| - 1].opcode))
  }

  /** A data frame that opens or continues the chain joins the fragments. */
  lemma GatherData(read: seq<Frame>, fragments: seq<Frame>, f: Frame)
    requires Gathered(read, fragments) && !IsControl(f.opcode)
    requires fragments == [] || (!fragments[|fragments| - 1].final && f.opcode == CONTINUATION)
    ensures Gathered(read + [f], fragments + [f])
    ensures PongsFor(read + [f]) == PongsFor(read)
  {
    ReadStep(read, f);
    assert forall i :: 0 <= i < |read| ==> (read + [f])[i] == read[i];
  }

  /** A control frame other than CLOSE leaves the fragments and owes a PONG when it is a PING. */
  lemma GatherControl(read: seq<Frame>, fragments: seq<Frame>, f: Frame)
    requires Gathered(read, fragments) && IsControl(f.opcode) && f.opcode != CLOSE
    requires fragments == [] || !fragments[|fragments| - 1].final
    ensures Gathered(read + [f], fragments)
    ensures PongsFor(read + [f]) == PongsFor(read) + (if f.opcode == PING then [PongFrame(f.payload)] else [])
  {
    ReadStep(read, f);
    assert forall i :: 0 <= i < |read| ==> (read + [f])[i] == read[i];
  }

  /** One more frame read adds to the data frames or to the PONGs owed, as its opcode says. */
  lemma ReadStep(read: seq<Frame>, f: Frame)
    ensures DataFrames(read + [f]) == DataFrames(read) + (if IsControl(f.opcode) then [] else [f])
    ensures PongsFor(read + [f]) == PongsFor(read) + (if f.opcode == PING then [PongFrame(f.payload)] else [])
  {
    assert (read + [f])[..|read|] == read;
  }
}
