/**
 * extension.py: an extension class names itself, claims RSV bits and
 * opcodes, and carries default and requested parameters; an instance copies
 * those dicts and overrides them with its arguments. `create_hook` builds a
 * hook whose parameters are the defaults overridden by keyword arguments,
 * and `extension_conflicts` tells whether an extension claims a bit or an
 * opcode already claimed.
 */
module Extensions {
  import opened Errors
  import opened Frames
  import opened Dicts

  /** A parameter value: what a header parameter or a Python default can be. */
  datatype Value = IntVal(i: int) | BoolVal(b: bool) | StrVal(s: string) | NoneVal

  /** The class attributes of an Extension subclass. */
  datatype ExtensionClass = ExtensionClass(
    name: string, rsv1: bool, rsv2: bool, rsv3: bool, opcodes: seq<Opcode>,
    defaults: Dict<Value>, request: Dict<Value>)

  /** An instance: its class and its own copies of the parameter dicts. */
  datatype Extension = Extension(cls: ExtensionClass, defaults: Dict<Value>, request: Dict<Value>)

  /** The first of `keys` that is not among `known`. */
  function FirstUnknown(keys: seq<string>, known: seq<string>): (r: Option<string>)
    ensures r.None? <==> forall k :: k in keys ==> k in known
    ensures r.Some? ==> r.value in keys && r.value !in known
  {
    if |keys| == 0 then None
    else if keys[0] !in known then Some(keys[0])
    else FirstUnknown(keys[1..], known)
  }

  /**
   * `Extension.__init__(defaults, request)`: a KeyError for the first key of
   * either argument that the class defaults do not have; otherwise copies of
   * the class dicts updated with the arguments.
   */
  function NewExtension(cls: ExtensionClass, defaults: Dict<Value>, request: Dict<Value>): (r: Result<Extension>)
    ensures r.Ok? <==> forall k :: k in Keys(defaults) + Keys(request) ==> k in Keys(cls.defaults)
    ensures r.Err? ==> (r.error.UnrecognizedParameter?
      && r.error.key in Keys(defaults) + Keys(request) && r.error.key !in Keys(cls.defaults))
    ensures r.Ok? ==> r.value.cls == cls
  {
    match FirstUnknown(Keys(defaults) + Keys(request), Keys(cls.defaults))
    case Some(k) => Err(UnrecognizedParameter(k))
    case None => Ok(Extension(cls, Update(cls.defaults, defaults), Update(cls.request, request)))
  }

  /**
   * An instance's parameters: a key given to the constructor has the given
   * value, any other key the class's value; the class itself is unchanged.
   */
  lemma NewExtensionParams(cls: ExtensionClass, defaults: Dict<Value>, request: Dict<Value>, key: string)
    requires UniqueKeys(defaults) && UniqueKeys(request)
    requires NewExtension(cls, defaults, request).Ok?
    ensures var e := NewExtension(cls, defaults, request).value;
      && Get(e.defaults, key) == (if key in Keys(defaults) then Get(defaults, key) else Get(cls.defaults, key))
      && Get(e.request, key) == (if key in Keys(request) then Get(request, key) else Get(cls.request, key))
  {
    UpdateGet(cls.defaults, defaults, key);
    UpdateGet(cls.request, request, key);
  }

  /** A hook made by `create_hook`: the attributes it was given, and the extension the corrected deflate-frame hook keeps. */
  datatype Hook = Hook(extension: Extension, params: Dict<Value>)

  /** `create_hook(**kwargs)`: parameters are an empty dict updated with the defaults, then with kwargs. */
  function CreateHook(e: Extension, kwargs: Dict<Value>): (h: Hook)
    ensures h.extension == e
  {
    Hook(e, Update(Update([], e.defaults), kwargs))
  }

  /** A keyword argument overrides the default of the same name; other parameters keep their defaults. */
  lemma CreateHookParams(e: Extension, kwargs: Dict<Value>, key: string)
    requires UniqueKeys(e.defaults) && UniqueKeys(kwargs)
    ensures Get(CreateHook(e, kwargs).params, key) ==
      if key in Keys(kwargs) then Get(kwargs, key) else Get(e.defaults, key)
  {
    UpdateGet(Update([], e.defaults), kwargs, key);
    UpdateGet([], e.defaults, key);
  }

  /** The base `Hook.send`: the frame passes unchanged. */
  function HookSend(h: Hook, f: Frame): (r: Frame)
    ensures r == f
  {
    f
  }

  /** The base `Hook.recv`: the frame passes unchanged. */
  function HookRecv(h: Hook, f: Frame): (r: Frame)
    ensures r == f
  {
    f
  }

  // ---------------------------------------------------------------- conflicts

  /** Both extensions claim some opcode. */
  predicate SharesOpcode(a: Extension, b: Extension) {
    exists o :: o in a.cls.opcodes && o in b.cls.opcodes
  }

  /** `a` claims an RSV bit or an opcode that `b` claims too. */
  predicate Clashes(a: Extension, b: Extension) {
    || (a.cls.rsv1 && b.cls.rsv1)
    || (a.cls.rsv2 && b.cls.rsv2)
    || (a.cls.rsv3 && b.cls.rsv3)
    || SharesOpcode(a, b)
  }

  /** `ext` clashes with one of the existing extensions. */
  predicate Conflicts(ext: Extension, existing: seq<Extension>) {
    exists j :: 0 <= j < |existing| && Clashes(ext, existing[j])
  }

  /**
   * `extension_conflicts`: collect the bits and opcodes the existing
   * extensions reserve, then test ext's against them.
   */
  method ExtensionConflicts(ext: Extension, existing: seq<Extension>) returns (r: bool)
    ensures r <==> Conflicts(ext, existing)
  {
    var rsv1Reserved, rsv2Reserved, rsv3Reserved := false, false, false;
    var reservedOpcodes: seq<Opcode> := [];
    for i := 0 to |existing|
      invariant rsv1Reserved <==> exists j :: 0 <= j < i && existing[j].cls.rsv1
      invariant rsv2Reserved <==> exists j :: 0 <= j < i && existing[j].cls.rsv2
      invariant rsv3Reserved <==> exists j :: 0 <= j < i && existing[j].cls.rsv3
      invariant forall o :: o in reservedOpcodes <==> exists j :: 0 <= j < i && o in existing[j].cls.opcodes
    {
      var e := existing[i];
      rsv1Reserved := rsv1Reserved || e.cls.rsv1;
      rsv2Reserved := rsv2Reserved || e.cls.rsv2;
      rsv3Reserved := rsv3Reserved || e.cls.rsv3;
      reservedOpcodes := reservedOpcodes + e.cls.opcodes;
    }
    var shared := exists o :: o in ext.cls.opcodes && o in reservedOpcodes;
    r := (ext.cls.rsv1 && rsv1Reserved) || (ext.cls.rsv2 && rsv2Reserved)
      || (ext.cls.rsv3 && rsv3Reserved) || shared;
    ConflictsByReservation(ext, existing, rsv1Reserved, rsv2Reserved, rsv3Reserved, shared);
  }

  /** Testing against the pooled reservations is testing against each extension in turn. */
  lemma ConflictsByReservation(ext: Extension, existing: seq<Extension>, r1: bool, r2: bool, r3: bool, shared: bool)
    requires r1 <==> exists j :: 0 <= j < |existing| && existing[j].cls.rsv1
    requires r2 <==> exists j :: 0 <= j < |existing| && existing[j].cls.rsv2
    requires r3 <==> exists j :: 0 <= j < |existing| && existing[j].cls.rsv3
    requires shared <==> exists j :: 0 <= j < |existing| && SharesOpcode(ext, existing[j])
    ensures ((ext.cls.rsv1 && r1) || (ext.cls.rsv2 && r2) || (ext.cls.rsv3 && r3) || shared)
      <==> Conflicts(ext, existing)
  {
  }

  // ---------------------------------------------------------------- filtering

  /** No extension of the list clashes with one before it. */
  predicate ConflictFree(exts: seq<Extension>) {
    forall i, j :: 0 <= i < j < |exts| ==> !Clashes(exts[j], exts[i])
  }

  /** `a` is `b` with some elements left out: the same elements in the same order. */
  predicate IsSubsequence<T(==)>(a: seq<T>, b: seq<T>)
    decreases |b|
  {
    if |a| == 0 then true
    else if |b| == 0 then false
    else (a[0] == b[0] && IsSubsequence(a[1..], b[1..])) || IsSubsequence(a, b[1..])
  }

  /**
   * `filter_extensions`, which handshake.py imports and extension.py does
   * not define: keep, in order, each extension that does not conflict with
   * those kept before it.
   */
  function FilterExtensions(exts: seq<Extension>): (r: seq<Extension>)
    ensures ConflictFree(r)
    ensures forall e :: e in r ==> e in exts
    ensures IsSubsequence(r, exts)
  {
    KeepCompatibleProperties([], exts);
    KeepCompatibleOrder([], exts);
    assert KeepCompatible([], exts)[0..] == KeepCompatible([], exts);
    KeepCompatible([], exts)
  }

  function KeepCompatible(kept: seq<Extension>, rest: seq<Extension>): seq<Extension>
    decreases |rest|
  {
    if |rest| == 0 then kept
    else if Conflicts(rest[0], kept) then KeepCompatible(kept, rest[1..])
    else KeepCompatible(kept + [rest[0]], rest[1..])
  }

  /**
   * The filtered list has no conflicts, holds only offered extensions in
   * their order, and every offered extension left out conflicts with one
   * that was kept.
   */
  lemma FilterExtensionsProperties(exts: seq<Extension>)
    ensures var r := FilterExtensions(exts);
      && ConflictFree(r)
      && IsSubsequence(r, exts)
      && (forall e :: e in r ==> e in exts)
      && (forall e :: e in exts ==> e in r || Conflicts(e, r))
  {
    KeepCompatibleProperties([], exts);
  }

  /** The greedy filter appends to what it has kept a subsequence of the extensions still to see. */
  lemma {:induction false} KeepCompatibleOrder(kept: seq<Extension>, rest: seq<Extension>)
    ensures var r := KeepCompatible(kept, rest);
      kept <= r && IsSubsequence(r[|kept|..], rest)
    decreases |rest|
  {
    var r := KeepCompatible(kept, rest);
    if |rest| == 0 {
      assert r[|kept|..] == [];
    } else if Conflicts(rest[0], kept) {
      KeepCompatibleOrder(kept, rest[1..]);
    } else {
      var next := kept + [rest[0]];
      KeepCompatibleOrder(next, rest[1..]);
      var added := r[|kept|..];
      assert added[0] == rest[0];
      assert added[1..] == r[|next|..];
    }
  }

  lemma {:induction false} KeepCompatibleProperties(kept: seq<Extension>, rest: seq<Extension>)
    requires ConflictFree(kept)
    ensures var r := KeepCompatible(kept, rest);
      && ConflictFree(r) && kept <= r
      && (forall e :: e in r ==> e in kept || e in rest)
      && (forall e :: e in rest ==> e in r || Conflicts(e, r))
    decreases |rest|
  {
    if |rest| > 0 {
      var e := rest[0];
      var r := KeepCompatible(kept, rest);
      if Conflicts(e, kept) {
        KeepCompatibleProperties(kept, rest[1..]);
        var j :| 0 <= j < |kept| && Clashes(e, kept[j]);
        assert kept[j] == r[j];
      } else {
        var next := kept + [e];
        assert ConflictFree(next) by {
          forall i, j | 0 <= i < j < |next|
            ensures !Clashes(next[j], next[i])
          {
            if j == |kept| {
              assert next[i] == kept[i];
            }
          }
        }
        KeepCompatibleProperties(next, rest[1..]);
        assert e == r[|kept|];
      }
      forall x | x in rest
        ensures x in r || Conflicts(x, r)
      {
        if x != e {
          assert x in rest[1..];
        }
      }
    }
  }
}
