/**
 * deflate_frame.py: the per-frame deflate extension
 * (draft-tyoshino-hybi-websocket-perframe-deflate-06). Its hook compresses
 * outgoing data frames and marks them with RSV1, and inflates incoming
 * frames that carry RSV1. zlib is not modelled: a compressor or
 * decompressor stream is described by what it has been fed so far, and
 * what it outputs is a function of that.
 */
module Deflate {
  import opened Errors
  import opened Octets
  import opened Frames
  import opened Dicts
  import opened Extensions

  const DEFLATE_FRAME: ExtensionClass := ExtensionClass(
    "deflate-frame", true, false, false, [],
    [("max_window_bits", IntVal(15)), ("no_context_takeover", BoolVal(false))], [])

  const WEBKIT_DEFLATE_FRAME: ExtensionClass := DEFLATE_FRAME.(name := "x-webkit-deflate-frame")

  /** `isinstance(v, int)`: a bool is an int in Python. */
  predicate IsPythonInt(v: Value) {
    v.IntVal? || v.BoolVal?
  }

  function AsInt(v: Value): int
    requires IsPythonInt(v)
  {
    if v.IntVal? then v.i else if v.b then 1 else 0
  }

  /** Python truthiness of a parameter value. */
  predicate Truthy(v: Value) {
    match v
    case IntVal(i) => i != 0
    case BoolVal(b) => b
    case StrVal(s) => s != ""
    case NoneVal => false
  }

  /** `self.defaults[key]`: a KeyError when the key is missing. */
  function Lookup(d: Dict<Value>, key: string): (r: Result<Value>)
    ensures r.Ok? <==> Get(d, key).Some?
    ensures r.Ok? ==> r.value == Get(d, key).value
    ensures r.Err? ==> r.error == MissingKey(key)
  {
    match Get(d, key)
    case Some(v) => Ok(v)
    case None => Err(MissingKey(key))
  }

  /**
   * What `DeflateFrame.__init__` demands of the merged defaults: an int
   * max_window_bits no larger than 32768, and no_context_takeover exactly
   * True or False.
   */
  predicate DeflateDefaultsValid(d: Dict<Value>) {
    var mwb := Get(d, "max_window_bits");
    var cto := Get(d, "no_context_takeover");
    && mwb.Some? && IsPythonInt(mwb.value) && AsInt(mwb.value) <= 32768
    && cto.Some? && cto.value.BoolVal?
  }

  /**
   * `DeflateFrame.__init__`: the Extension checks, then max_window_bits must
   * be an int no larger than 32768 and no_context_takeover exactly True or
   * False. A missing parameter is a KeyError, and the window bits are
   * checked before no_context_takeover.
   */
  function NewDeflateFrame(cls: ExtensionClass, defaults: Dict<Value>, request: Dict<Value>): (r: Result<Extension>)
    ensures r.Ok? <==> (NewExtension(cls, defaults, request).Ok?
      && DeflateDefaultsValid(NewExtension(cls, defaults, request).value.defaults))
    ensures r.Ok? ==> r == NewExtension(cls, defaults, request)
    ensures NewExtension(cls, defaults, request).Err? ==> r == NewExtension(cls, defaults, request)
    ensures NewExtension(cls, defaults, request).Ok? ==> (
      var d := NewExtension(cls, defaults, request).value.defaults;
      var mwb := Get(d, "max_window_bits");
      var cto := Get(d, "no_context_takeover");
      && (mwb.None? ==> r == Err(MissingKey("max_window_bits")))
      && (mwb.Some? && cto.None? ==> r == Err(MissingKey("no_context_takeover")))
      && (mwb.Some? && cto.Some? && (!IsPythonInt(mwb.value) || AsInt(mwb.value) > 32768)
          ==> r == Err(InvalidWindowBits))
      && (mwb.Some? && cto.Some? && IsPythonInt(mwb.value) && AsInt(mwb.value) <= 32768 && !cto.value.BoolVal?
          ==> r == Err(InvalidNoContextTakeover)))
  {
    match NewExtension(cls, defaults, request)
    case Err(e) => Err(e)
    case Ok(ext) =>
      match Lookup(ext.defaults, "max_window_bits")
      case Err(e) => Err(e)
      case Ok(mwb) =>
        match Lookup(ext.defaults, "no_context_takeover")
        case Err(e) => Err(e)
        case Ok(cto) =>
          if !IsPythonInt(mwb) then Err(InvalidWindowBits)
          else if AsInt(mwb) > 32768 then Err(InvalidWindowBits)
          else if cto != BoolVal(false) && cto != BoolVal(true) then Err(InvalidNoContextTakeover)
          else Ok(ext)
  }

  /** Both deflate-frame classes accept their own defaults. */
  lemma DeflateFrameDefaultsAccepted()
    ensures NewDeflateFrame(DEFLATE_FRAME, [], []).Ok?
    ensures NewDeflateFrame(WEBKIT_DEFLATE_FRAME, [], []).Ok?
    ensures NewDeflateFrame(DEFLATE_FRAME, [("max_window_bits", IntVal(32769))], []) == Err(InvalidWindowBits)
    ensures NewDeflateFrame(DEFLATE_FRAME, [("no_context_takeover", IntVal(1))], []) == Err(InvalidNoContextTakeover)
  {
    assert Keys(DEFLATE_FRAME.defaults) == ["max_window_bits", "no_context_takeover"];
  }

  // ---------------------------------------------------------------- zlib

  /**
   * zlib, as functions of what a stream has been fed: the output of
   * `compress(data) + flush(Z_SYNC_FLUSH)` after the earlier inputs, the
   * output of a fresh compressor finished on data, and what a decompressor
   * that was fed the earlier inputs makes of data, with whether unused data
   * is left. Window bits are the first argument.
   */
  datatype Zlib = Zlib(
    syncFlush: (int, seq<seq<byte>>, seq<byte>) -> seq<byte>,
    finish: (int, seq<byte>) -> seq<byte>,
    decompress: (int, seq<seq<byte>>, seq<byte>) -> (seq<byte>, bool))

  /** What a sync flush ends with. */
  const SYNC_TAIL: seq<byte> := [0x00, 0x00, 0xFF, 0xFF]

  /** The compressed data without the sync-flush tail; an AssertionError when the tail is not there. */
  function StripSyncTail(c: seq<byte>): (r: Result<seq<byte>>)
    ensures r.Ok? <==> |c| >= 4 && c[|c| - 4..] == SYNC_TAIL
    ensures r.Err? ==> r.error == ZlibAssertion
  {
    if |c| >= 4 && c[|c| - 4..] == SYNC_TAIL then Ok(c[..|c| - 4]) else Err(ZlibAssertion)
  }

  /** What deflate sends, inflate gets back whole by appending the tail again. */
  lemma StripThenAppend(c: seq<byte>)
    requires StripSyncTail(c).Ok?
    ensures StripSyncTail(c).value + SYNC_TAIL == c
    ensures |StripSyncTail(c).value| == |c| - 4
  {
    assert c == c[..|c| - 4] + c[|c| - 4..];
  }

  /** The settings a deflate hook reads from its attributes and its extension's request. */
  datatype HookSettings = HookSettings(noContextTakeover: bool, maxWindowBits: int, otherWindowBits: int)

  /**
   * `DeflateFrame.Hook.__init__`: no_context_takeover and max_window_bits
   * come from the hook's parameters, the peer's window bits from the
   * extension's request (15 when absent); zlib needs integers.
   */
  function DeflateHookSettings(e: Extension, params: Dict<Value>): (r: Result<HookSettings>)
    ensures r.Ok? ==> (
      && Get(params, "no_context_takeover").Some?
      && r.value.noContextTakeover == Truthy(Get(params, "no_context_takeover").value)
      && Get(params, "max_window_bits").Some? && IsPythonInt(Get(params, "max_window_bits").value)
      && r.value.maxWindowBits == AsInt(Get(params, "max_window_bits").value))
    ensures r.Ok? && Get(e.request, "max_window_bits").None? ==> r.value.otherWindowBits == 15
  {
    match Get(params, "no_context_takeover")
    case None => Err(AttributeMissing("no_context_takeover"))
    case Some(cto) =>
      match Get(params, "max_window_bits")
      case None => Err(AttributeMissing("max_window_bits"))
      case Some(mwb) =>
        var other := match Get(e.request, "max_window_bits") case Some(v) => v case None => IntVal(15);
        if !IsPythonInt(mwb) || !IsPythonInt(other) then Err(TypeError("bad operand type for unary -"))
        else Ok(HookSettings(Truthy(cto), AsInt(mwb), AsInt(other)))
  }

  /**
   * `create_hook` on a deflate-frame extension as written: it calls
   * `self.Hook(**params)` without the `extension` argument that
   * `DeflateFrame.Hook.__init__` requires, and that constructor passes
   * `extension` on to the base `Hook.__init__`, which takes keyword
   * arguments only. Either way a TypeError.
   */
  function DeflateCreateHookAsWritten(e: Extension, kwargs: Dict<Value>): (r: Result<HookSettings>)
    ensures r.Err? && r.error.TypeError?
  {
    var params := CreateHook(e, kwargs).params;
    if "extension" !in Keys(params) then Err(TypeError("__init__() takes exactly 2 arguments"))
    else Err(TypeError("__init__() takes exactly 1 argument (2 given)"))
  }

  /**
   * The evidently intended hook of a deflate-frame extension made with its
   * own defaults: context takeover, and window bits 15 both ways.
   */
  lemma DeflateHookOfDefaults(cls: ExtensionClass)
    requires cls == DEFLATE_FRAME || cls == WEBKIT_DEFLATE_FRAME
    ensures NewDeflateFrame(cls, [], []).Ok?
    ensures var e := NewDeflateFrame(cls, [], []).value;
      DeflateHookSettings(e, CreateHook(e, []).params) == Ok(HookSettings(false, 15, 15))
  {
    DeflateFrameDefaultsAccepted();
    var e := NewDeflateFrame(cls, [], []).value;
    assert e == Extension(cls, Update(cls.defaults, []), Update(cls.request, []));
    assert e.defaults == cls.defaults && e.request == [];
    HookOfDefaults(e);
  }

  /** A hook made without arguments on an extension with the deflate-frame defaults and no request. */
  lemma HookOfDefaults(e: Extension)
    requires e.defaults == DEFLATE_FRAME.defaults && e.request == []
    ensures DeflateHookSettings(e, CreateHook(e, []).params) == Ok(HookSettings(false, 15, 15))
  {
    assert CreateHook(e, []).params == DEFLATE_FRAME.defaults by {
      SetFresh([], "max_window_bits", IntVal(15));
      SetFresh([("max_window_bits", IntVal(15))], "no_context_takeover", BoolVal(false));
    }
  }

  /** The outputs of the streaming compressor for each of its inputs in turn. */
  function SyncStream(z: Zlib, wbits: int, inputs: seq<seq<byte>>): (r: seq<seq<byte>>)
    ensures |r| == |inputs|
  {
    if |inputs| == 0 then []
    else SyncStream(z, wbits, inputs[..|inputs| - 1]) + [z.syncFlush(wbits, inputs[..|inputs| - 1], inputs[|inputs| - 1])]
  }

  /**
   * What a correct zlib does: every sync flush ends with the tail, and a
   * decompressor fed the compressor's earlier outputs turns the next output
   * back into its input, with nothing left over.
   */
  ghost predicate SyncFlushInverts(z: Zlib, wbits: int) {
    forall inputs: seq<seq<byte>>, data: seq<byte> ::
      var c := z.syncFlush(wbits, inputs, data);
      && |c| >= 4 && c[|c| - 4..] == SYNC_TAIL
      && z.decompress(wbits, SyncStream(z, wbits, inputs), c) == (data, false)
  }

  class DeflateHook {
    const zlib: Zlib
    const settings: HookSettings
    /** The inputs of the streaming compressor so far. */
    var deflated: seq<seq<byte>>
    /** The inputs of the decompressor so far. */
    var inflated: seq<seq<byte>>

    constructor(zlib: Zlib, settings: HookSettings)
      ensures this.zlib == zlib && this.settings == settings
      ensures deflated == [] && inflated == []
    {
      this.zlib := zlib;
      this.settings := settings;
      deflated := [];
      inflated := [];
    }

    /**
     * `deflate`: without context takeover a fresh compressor's finished
     * output and one zero byte; otherwise the streaming compressor's
     * sync-flushed output without its tail.
     */
    method Deflate(data: seq<byte>) returns (r: Result<seq<byte>>)
      modifies this`deflated
      ensures settings.noContextTakeover ==> (
        && r == Ok(zlib.finish(settings.maxWindowBits, data) + [0x00])
        && deflated == old(deflated))
      ensures !settings.noContextTakeover ==> (
        && r == StripSyncTail(zlib.syncFlush(settings.maxWindowBits, old(deflated), data))
        && deflated == old(deflated) + [data])
    {
      if settings.noContextTakeover {
        return Ok(zlib.finish(settings.maxWindowBits, data) + [0x00]);
      }
      var compressed := zlib.syncFlush(settings.maxWindowBits, deflated, data);
      deflated := deflated + [data];
      r := StripSyncTail(compressed);
    }

    /** `inflate`: the tail appended again, then decompressed; an AssertionError if data is left unused. */
    method Inflate(data: seq<byte>) returns (r: Result<seq<byte>>)
      modifies this`inflated
      ensures inflated == old(inflated) + [data + SYNC_TAIL]
      ensures var (out, unused) := zlib.decompress(settings.otherWindowBits, old(inflated), data + SYNC_TAIL);
        r == if unused then Err(ZlibAssertion) else Ok(out)
    {
      var (out, unused) := zlib.decompress(settings.otherWindowBits, inflated, data + SYNC_TAIL);
      inflated := inflated + [data + SYNC_TAIL];
      if unused {
        return Err(ZlibAssertion);
      }
      return Ok(out);
    }

    /** `Hook.send`: a data frame without RSV1 is compressed and gets RSV1; any other frame is left alone. */
    method Send(f: Frame) returns (r: Result<Frame>)
      modifies this`deflated
      ensures f.rsv1 || IsControl(f.opcode) ==> r == Ok(f) && deflated == old(deflated)
      ensures !f.rsv1 && !IsControl(f.opcode) ==> (
        && (r.Ok? ==> r.value == f.(rsv1 := true, payload := r.value.payload))
        && (settings.noContextTakeover ==>
              r == Ok(f.(rsv1 := true, payload := zlib.finish(settings.maxWindowBits, f.payload) + [0x00])))
        && (!settings.noContextTakeover ==> (
              var c := StripSyncTail(zlib.syncFlush(settings.maxWindowBits, old(deflated), f.payload));
              && deflated == old(deflated) + [f.payload]
              && r == if c.Ok? then Ok(f.(rsv1 := true, payload := c.value)) else Err(c.error))))
    {
      if !f.rsv1 && !IsControl(f.opcode) {
        var p := Deflate(f.payload);
        if p.Err? {
          return Err(p.error);
        }
        return Ok(f.(rsv1 := true, payload := p.value));
      }
      return Ok(f);
    }

    /** `Hook.recv`: a compressed control frame is refused; a compressed data frame is inflated and loses RSV1. */
    method Recv(f: Frame) returns (r: Result<Frame>)
      modifies this`inflated
      ensures !f.rsv1 ==> r == Ok(f) && inflated == old(inflated)
      ensures f.rsv1 && IsControl(f.opcode) ==> r == Err(CompressedControlFrame) && inflated == old(inflated)
      ensures f.rsv1 && !IsControl(f.opcode) ==> (
        var (out, unused) := zlib.decompress(settings.otherWindowBits, old(inflated), f.payload + SYNC_TAIL);
        && inflated == old(inflated) + [f.payload + SYNC_TAIL]
        && r == if unused then Err(ZlibAssertion) else Ok(f.(rsv1 := false, payload := out)))
    {
      if f.rsv1 {
        if IsControl(f.opcode) {
          return Err(CompressedControlFrame);
        }
        var p := Inflate(f.payload);
        if p.Err? {
          return Err(p.error);
        }
        return Ok(f.(rsv1 := false, payload := p.value));
      }
      return Ok(f);
    }
  }

  /**
   * With context takeover and a zlib that inverts its sync flush, a payload
   * deflated by one hook is inflated back by a peer hook that has received
   * everything sent before it, and the two streams stay in step.
   */
  lemma DeflateInflateRoundTrip(z: Zlib, wbits: int, sent: seq<seq<byte>>, data: seq<byte>)
    requires SyncFlushInverts(z, wbits)
    ensures var c := StripSyncTail(z.syncFlush(wbits, sent, data));
      && c.Ok?
      && z.decompress(wbits, SyncStream(z, wbits, sent), c.value + SYNC_TAIL) == (data, false)
      && SyncStream(z, wbits, sent + [data]) == SyncStream(z, wbits, sent) + [c.value + SYNC_TAIL]
  {
    var full := z.syncFlush(wbits, sent, data);
    assert |full| >= 4 && full[|full| - 4..] == SYNC_TAIL
      && z.decompress(wbits, SyncStream(z, wbits, sent), full) == (data, false);
    StripThenAppend(full);
    assert (sent + [data])[..|sent|] == sent;
  }
}
