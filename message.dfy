/**
 * The message layer of message.py: a message is an opcode and a payload,
 * turned into one frame or a chain of fragments; `create_message` picks the
 * message class from the opcode.
 */
module Messages {
  import opened Errors
  import opened Octets
  import opened Bytes
  import opened Frames

  /** The Python class a message is an instance of. */
  datatype MessageClass = GenericMessage | TextMessage | BinaryMessage

  datatype Message = Message(cls: MessageClass, opcode: Opcode, payload: seq<byte>)

  /** `TextMessage(payload)`. */
  function NewTextMessage(payload: seq<byte>): (m: Message)
    ensures m.cls == TextMessage && m.opcode == TEXT && m.payload == payload
  {
    Message(TextMessage, TEXT, payload)
  }

  /** `BinaryMessage(payload)`, as intended: opcode BINARY. */
  function NewBinaryMessage(payload: seq<byte>): (m: Message)
    ensures m.cls == BinaryMessage && m.opcode == BINARY && m.payload == payload
  {
    Message(BinaryMessage, BINARY, payload)
  }

  /**
   * `BinaryMessage(payload)` as written: `super(TextMessage, self)` on an
   * object that is not a TextMessage raises a TypeError.
   */
  function NewBinaryMessageAsWritten(payload: seq<byte>): (r: Result<Message>)
    ensures r.Err?
  {
    Err(TypeError("super(type, obj): obj must be an instance or subtype of type"))
  }

  /** `Message.frame()`: one final, unmasked frame with the message's opcode and payload. */
  function ToFrame(m: Message): (f: Frame)
    ensures f.final && f.maskingKey == [] && !f.rsv1 && !f.rsv2 && !f.rsv3
    ensures f.opcode == m.opcode && f.payload == m.payload
  {
    SimpleFrame(m.opcode, m.payload)
  }

  /** `Message.fragment(size, mask)`: the fragments of the message's frame. */
  function ToFragments(m: Message, size: int, mask: bool, keys: nat -> Key): (r: Result<seq<Frame>>)
    ensures size == 0 ==> r == Err(ZeroFragmentSize)
    ensures size != 0 && r.Err? ==> r == Err(NoFragments)
  {
    Fragment(ToFrame(m), size, mask, keys)
  }

  /** The payloads of a list of frames. */
  function Payloads(frames: seq<Frame>): (r: seq<seq<byte>>)
    ensures |r| == |frames|
    ensures forall i :: 0 <= i < |frames| ==> r[i] == frames[i].payload
  {
    seq(|frames|, i requires 0 <= i < |frames| => frames[i].payload)
  }

  /**
   * The fragments of a non-empty message concatenate to its payload, the
   * first carries its opcode and only the last is final; an empty payload
   * or a size below one is refused.
   */
  lemma ToFragmentsProperties(m: Message, size: int, mask: bool, keys: nat -> Key)
    ensures ToFragments(m, size, mask, keys).Ok? <==> size > 0 && |m.payload| > 0
    ensures size > 0 && |m.payload| > 0 ==>
      var fs := ToFragments(m, size, mask, keys).value;
      && |fs| >= 1 && Concat(Payloads(fs)) == m.payload
      && fs[0].opcode == m.opcode && fs[|fs| - 1].final
      && forall i :: 0 <= i < |fs| ==> |fs[i].payload| <= size
  {
    if size > 0 && |m.payload| > 0 {
      FragmentProperties(ToFrame(m), size, mask, keys);
      var fs := ToFragments(m, size, mask, keys).value;
      assert Payloads(fs) == seq(|fs|, i requires 0 <= i < |fs| => fs[i].payload);
    }
  }

  /** `create_message`: TEXT and BINARY get their classes, anything else a plain Message. */
  function CreateMessage(opcode: Opcode, payload: seq<byte>): (m: Message)
    ensures m.opcode == opcode && m.payload == payload
    ensures m.cls == TextMessage <==> opcode == TEXT
    ensures m.cls == BinaryMessage <==> opcode == BINARY
  {
    if opcode == TEXT then NewTextMessage(payload)
    else if opcode == BINARY then NewBinaryMessage(payload)
    else Message(GenericMessage, opcode, payload)
  }

  /**
   * `create_message` as written: it calls the class map itself, a dict,
   * which raises a TypeError for exactly the opcodes the map holds.
   */
  function CreateMessageAsWritten(opcode: Opcode, payload: seq<byte>): (r: Result<Message>)
  {
    if opcode == TEXT || opcode == BINARY then Err(TypeError("'dict' object is not callable"))
    else Ok(Message(GenericMessage, opcode, payload))
  }

  /** As written, no TEXT or BINARY message can be created; the corrected one keeps both. */
  lemma CreateMessageAsWrittenFailsOnData(payload: seq<byte>)
    ensures CreateMessageAsWritten(TEXT, payload).Err? && CreateMessageAsWritten(BINARY, payload).Err?
    ensures CreateMessage(TEXT, payload) == NewTextMessage(payload)
    ensures CreateMessage(BINARY, payload) == NewBinaryMessage(payload)
  {
  }

  /** A message built from a single frame of a data message is that message. */
  lemma CreateMessageOfFrame(m: Message)
    requires m == NewTextMessage(m.payload) || m == NewBinaryMessage(m.payload)
    ensures CreateMessage(ToFrame(m).opcode, ToFrame(m).payload) == m
  {
  }
}
