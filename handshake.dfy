/**
 * handshake.py: the opening handshake of section 4 of RFC 6455 on a list of
 * received (name, value) header fields. The server checks the client's
 * request, picks a subprotocol and the extensions, and answers with the
 * accept token; the client checks that answer, follows redirects and
 * answers authentication challenges. The raw HTTP text, the socket, SHA-1,
 * the random key bytes and URL parsing are outside: fields arrive as a
 * list, SHA-1 is a function parameter, and so on.
 */
module Handshakes {
  import opened Errors
  import opened Octets
  import opened Strings
  import opened Dicts
  import opened Extensions
  import opened Base64
  import opened ParamHeaders

  const WS_GUID: string := "258EAFA5-E914-47DA-95CA-C5AB0DC85B11"
  const WS_VERSION: string := "13"
  const MAX_REDIRECTS: nat := 10

  /** Header fields as received: (name, value) pairs, names possibly repeated. */
  type Fields = seq<(string, string)>

  /** SHA-1 of a text, as the 20 bytes of its digest. */
  type Sha1 = string -> seq<byte>

  // ---------------------------------------------------------------- receiving headers

  /** The values received under a name, in arrival order. */
  function ValuesOf(raw: Fields, name: string): (r: seq<string>)
    ensures |r| <= |raw|
  {
    if |raw| == 0 then []
    else
      var last := raw[|raw| - 1];
      ValuesOf(raw[..|raw| - 1], name) + (if last.0 == name then [last.1] else [])
  }

  /** All values of a name joined by ", ": `header(name)` of websocket.py. */
  function Joined(raw: Fields, name: string): string {
    Join(ValuesOf(raw, name), ", ")
  }

  /** One step of `receive_headers`: a repeated name gets ", " and the value appended. */
  function MergeField(headers: Dict<string>, field: (string, string)): Dict<string> {
    match Get(headers, field.0)
    case Some(v) => Set(headers, field.0, v + ", " + field.1)
    case None => Set(headers, field.0, field.1)
  }

  /** Merging one field into a dict with one entry per name keeps one entry per name. */
  lemma MergeFieldUnique(headers: Dict<string>, field: (string, string))
    requires UniqueKeys(headers)
    ensures UniqueKeys(MergeField(headers, field))
  {
    match Get(headers, field.0)
    case Some(v) => SetUnique(headers, field.0, v + ", " + field.1);
    case None => SetUnique(headers, field.0, field.1);
  }

  /** The dict `receive_headers` builds from the fields received so far. */
  function MergedHeaders(raw: Fields): (r: Dict<string>)
    ensures UniqueKeys(r)
  {
    if |raw| == 0 then []
    else
      var h := MergedHeaders(raw[..|raw| - 1]);
      MergeFieldUnique(h, raw[|raw| - 1]);
      MergeField(h, raw[|raw| - 1])
  }

  /**
   * `receive_headers` after the header text is in: each name once, with
   * every value received under it joined by ", " in arrival order.
   */
  method ReceiveHeaders(raw: Fields) returns (headers: Dict<string>)
    ensures headers == MergedHeaders(raw)
  {
    headers := [];
    for i := 0 to |raw|
      invariant headers == MergedHeaders(raw[..i])
    {
      var (key, value) := raw[i];
      match Get(headers, key) {
        case Some(prev) => headers := Set(headers, key, prev + ", " + value);
        case None => headers := Set(headers, key, value);
      }
      assert raw[..i + 1][..i] == raw[..i];
    }
    assert raw[..|raw|] == raw;
  }

  /** A name has values exactly when it was received. */
  lemma {:induction false} ValuesOfPresent(raw: Fields, name: string)
    ensures |ValuesOf(raw, name)| > 0 <==> name in Keys(raw)
  {
    if |raw| > 0 {
      var front := raw[..|raw| - 1];
      ValuesOfPresent(front, name);
      assert Keys(raw) == Keys(front) + [raw[|raw| - 1].0];
    }
  }

  /** The merged dict holds a name's joined values, and only names that were received. */
  lemma {:induction false} MergedGet(raw: Fields, name: string)
    ensures Get(MergedHeaders(raw), name) == if name in Keys(raw) then Some(Joined(raw, name)) else None
  {
    if |raw| > 0 {
      var front, last := raw[..|raw| - 1], raw[|raw| - 1];
      assert raw == front + [last];
      KeysConcat(front, [last]);
      MergedGet(front, name);
      ValuesOfPresent(front, name);
      MergeFieldGet(MergedHeaders(front), last, name);
      var vs := ValuesOf(front, name);
      assert ValuesOf(raw, name) == vs + (if last.0 == name then [last.1] else []);
      if name != last.0 {
        assert vs + [] == vs;
        assert ValuesOf(raw, name) == vs;
      } else if name in Keys(front) {
        JoinSnoc(vs, ", ", last.1);
        assert Joined(raw, name) == Joined(front, name) + ", " + last.1;
      } else {
        assert vs + [last.1] == [last.1];
        assert Joined(raw, name) == last.1;
      }
    }
  }

  /** What one merge step does to the value of a name. */
  lemma MergeFieldGet(headers: Dict<string>, field: (string, string), name: string)
    ensures Get(MergeField(headers, field), name) ==
      if name != field.0 then Get(headers, name)
      else if Get(headers, name).Some? then Some(Get(headers, name).value + ", " + field.1)
      else Some(field.1)
  {
    match Get(headers, field.0) {
      case Some(v) => SetGet(headers, field.0, v + ", " + field.1, name);
      case None => SetGet(headers, field.0, field.1, name);
    }
  }

  /** Keys of the merged dict are distinct: each name is one entry. */
  lemma {:induction false} MergedUnique(raw: Fields)
    ensures UniqueKeys(MergedHeaders(raw))
  {
    if |raw| > 0 {
      var front, last := raw[..|raw| - 1], raw[|raw| - 1];
      MergedUnique(front);
      var m := MergedHeaders(front);
      match Get(m, last.0) {
        case Some(v) => SetUnique(m, last.0, v + ", " + last.1);
        case None => SetUnique(m, last.0, last.1);
      }
    }
  }

  // ---------------------------------------------------------------- server: checking the request

  /** The headers a client request must carry, in the order they are checked. */
  const REQUEST_REQUIRED: seq<string> :=
    ["Host", "Upgrade", "Connection", "Sec-WebSocket-Key", "Sec-WebSocket-Version"]

  /** `word in value.lower()`: the keyword checks ignore the case of the header. */
  predicate HasKeyword(value: string, word: string) {
    Contains(Lower(value), word)
  }

  /**
   * The origin policy: a request without Origin is refused when it comes
   * from a browser (it has a User-Agent) or when some origins are trusted;
   * a request with one is refused when origins are trusted and it is not
   * one of them.
   */
  predicate OriginAllowed(origin: Option<string>, browser: bool, trusted: seq<string>) {
    match origin
    case None => !browser && |trusted| == 0
    case Some(o) => |trusted| == 0 || o in trusted
  }

  /**
   * The origin checks in the order handshake.py makes them; the result is
   * the origin the response names, "null" unless origins are trusted.
   */
  function CheckOrigin(origin: Option<string>, browser: bool, trusted: seq<string>): (r: Result<string>)
    ensures r.Ok? <==> OriginAllowed(origin, browser, trusted)
    ensures r.Ok? ==> r.value == if origin.Some? && |trusted| > 0 then origin.value else "null"
    ensures origin.None? && browser ==> r == Err(HandshakeError(BrowserWithoutOrigin))
    ensures origin.None? && !browser && |trusted| > 0 ==> r == Err(HandshakeError(NoOriginWhileTrusting))
    ensures origin.Some? && |trusted| > 0 && origin.value !in trusted ==>
      r == Err(HandshakeError(UntrustedOrigin(origin.value)))
  {
    match origin
    case None =>
      if browser then Err(HandshakeError(BrowserWithoutOrigin))
      else if |trusted| > 0 then Err(HandshakeError(NoOriginWhileTrusting))
      else Ok("null")
    case Some(o) =>
      if |trusted| == 0 then Ok("null")
      else if o !in trusted then Err(HandshakeError(UntrustedOrigin(o)))
      else Ok(o)
  }

  /** Everything the server requires of a request before it negotiates. */
  predicate RequestAcceptable(headers: Dict<string>, trusted: seq<string>) {
    && "Host" in Keys(headers) && "Upgrade" in Keys(headers) && "Connection" in Keys(headers)
    && "Sec-WebSocket-Key" in Keys(headers) && "Sec-WebSocket-Version" in Keys(headers)
    && Get(headers, "Sec-WebSocket-Version") == Some(WS_VERSION)
    && Get(headers, "Upgrade").Some? && HasKeyword(Get(headers, "Upgrade").value, "websocket")
    && Get(headers, "Connection").Some? && HasKeyword(Get(headers, "Connection").value, "upgrade")
    && OriginAllowed(Get(headers, "Origin"), "User-Agent" in Keys(headers), trusted)
  }

  /** No required header is missing exactly when each of the five is present. */
  lemma RequiredPresent(names: seq<string>)
    ensures FirstUnknown(REQUEST_REQUIRED, names).None? <==>
      && "Host" in names && "Upgrade" in names && "Connection" in names
      && "Sec-WebSocket-Key" in names && "Sec-WebSocket-Version" in names
  {
    assert REQUEST_REQUIRED[0] == "Host" && REQUEST_REQUIRED[1] == "Upgrade";
    assert REQUEST_REQUIRED[2] == "Connection" && REQUEST_REQUIRED[3] == "Sec-WebSocket-Key";
    assert REQUEST_REQUIRED[4] == "Sec-WebSocket-Version";
  }

  /**
   * The checks at the start of `response_headers`, failing at the first
   * that does not hold: a missing header (the first missing, in the order
   * above), a version other than "13", no "websocket" in Upgrade, no
   * "upgrade" in Connection, then the origin policy.
   */
  function CheckRequest(headers: Dict<string>, trusted: seq<string>): (r: Result<string>)
    ensures r.Ok? <==> RequestAcceptable(headers, trusted)
    ensures r.Err? ==> r.error.HandshakeError?
    ensures FirstUnknown(REQUEST_REQUIRED, Keys(headers)).Some? ==>
      r == Err(HandshakeError(MissingHeader(FirstUnknown(REQUEST_REQUIRED, Keys(headers)).value)))
    ensures FirstUnknown(REQUEST_REQUIRED, Keys(headers)).None? ==>
      var version := Get(headers, "Sec-WebSocket-Version").value;
      version != WS_VERSION ==> r == Err(HandshakeError(UnsupportedVersion(version)))
    ensures r.Ok? ==> r.value == CheckOrigin(Get(headers, "Origin"), "User-Agent" in Keys(headers), trusted).value
  {
    RequiredPresent(Keys(headers));
    match FirstUnknown(REQUEST_REQUIRED, Keys(headers))
    case Some(n) => Err(HandshakeError(MissingHeader(n)))
    case None =>
      var version := Get(headers, "Sec-WebSocket-Version").value;
      if version != WS_VERSION then Err(HandshakeError(UnsupportedVersion(version)))
      else if !HasKeyword(Get(headers, "Upgrade").value, "websocket") then Err(HandshakeError(UpgradeWithoutWebsocket))
      else if !HasKeyword(Get(headers, "Connection").value, "upgrade") then Err(HandshakeError(ConnectionWithoutUpgrade))
      else CheckOrigin(Get(headers, "Origin"), "User-Agent" in Keys(headers), trusted)
  }

  // ---------------------------------------------------------------- server: negotiation

  /** p is the first of the offered protocols that is supported, or None when none is. */
  predicate FirstSupported(offered: seq<string>, supported: seq<string>, p: Option<string>) {
    match p
    case None => forall q :: q in offered ==> q !in supported
    case Some(v) => exists i :: (0 <= i < |offered| && offered[i] == v && v in supported
      && forall j :: 0 <= j < i ==> offered[j] !in supported)
  }

  /** Only one protocol is the first supported one. */
  lemma FirstSupportedUnique(offered: seq<string>, supported: seq<string>, p: Option<string>, q: Option<string>)
    requires FirstSupported(offered, supported, p) && FirstSupported(offered, supported, q)
    ensures p == q
  {
    if p.Some? && q.Some? {
      var i :| 0 <= i < |offered| && offered[i] == p.value && p.value in supported
        && forall j :: 0 <= j < i ==> offered[j] !in supported;
      var k :| 0 <= k < |offered| && offered[k] == q.value && q.value in supported
        && forall j :: 0 <= j < k ==> offered[j] !in supported;
      assert !(i < k) && !(k < i);
    }
  }

  /**
   * The loop that picks the subprotocol: the first protocol the client
   * offers, in the client's order, that the server supports; None when it
   * supports none of them.
   */
  method SelectProtocol(offered: seq<string>, supported: seq<string>) returns (p: Option<string>)
    ensures FirstSupported(offered, supported, p)
  {
    p := None;
    var i := 0;
    while i < |offered|
      invariant 0 <= i <= |offered|
      invariant forall j :: 0 <= j < i ==> offered[j] !in supported
    {
      if offered[i] in supported {
        p := Some(offered[i]);
        return;
      }
      i := i + 1;
    }
  }

  /**
   * `supported_ext[name]`, the dict built from the supported extensions by
   * name: of several with that name, the last.
   */
  function LastNamed(exts: seq<Extension>, name: string): (r: Option<Extension>)
    ensures r.None? <==> forall e :: e in exts ==> e.cls.name != name
    ensures r.Some? ==> exists i :: (0 <= i < |exts| && exts[i] == r.value && r.value.cls.name == name
      && forall j :: i < j < |exts| ==> exts[j].cls.name != name)
  {
    if |exts| == 0 then None
    else if exts[|exts| - 1].cls.name == name then Some(exts[|exts| - 1])
    else
      var r := LastNamed(exts[..|exts| - 1], name);
      assert forall e :: e in exts ==> e in exts[..|exts| - 1] || e == exts[|exts| - 1];
      r
  }

  /** An extension the client offered, with the parameters it gave it. */
  type Offer = (Extension, Dict<Value>)

  /** The offer an entry of the client's header makes, if the server supports its name. */
  function OfferOf(entry: string, supported: seq<Extension>): seq<Offer> {
    var (name, params) := ParseParamHdr(entry);
    match LastNamed(supported, name)
    case Some(e) => [(e, params)]
    case None => []
  }

  /** An entry makes one offer exactly when the server supports the name it parses to, with its parameters. */
  lemma OfferOfParsed(entry: string, supported: seq<Extension>)
    ensures |OfferOf(entry, supported)| <= 1
    ensures |OfferOf(entry, supported)| == 1 <==> LastNamed(supported, ParseParamHdr(entry).0).Some?
    ensures (|OfferOf(entry, supported)| == 1 ==>
      OfferOf(entry, supported)[0] == (LastNamed(supported, ParseParamHdr(entry).0).value, ParseParamHdr(entry).1))
  {
  }

  /** What f gives for each of xs, one after the other. */
  function Gather<T, U>(xs: seq<T>, f: T -> seq<U>): seq<U> {
    if |xs| == 0 then [] else Gather(xs[..|xs| - 1], f) + f(xs[|xs| - 1])
  }

  lemma {:induction false} GatherConcat<T, U>(a: seq<T>, b: seq<T>, f: T -> seq<U>)
    ensures Gather(a + b, f) == Gather(a, f) + Gather(b, f)
    decreases |b|
  {
    if |b| > 0 {
      var b' := b[..|b| - 1];
      assert (a + b)[..|a + b| - 1] == a + b' && (a + b)[|a + b| - 1] == b[|b| - 1];
      GatherConcat(a, b', f);
    } else {
      assert a + b == a;
    }
  }

  /** Whatever was gathered came from one of xs. */
  lemma {:induction false} GatherFrom<T, U>(xs: seq<T>, f: T -> seq<U>, y: U)
    requires y in Gather(xs, f)
    ensures exists k :: 0 <= k < |xs| && y in f(xs[k])
    decreases |xs|
  {
    var front := xs[..|xs| - 1];
    if y in Gather(front, f) {
      GatherFrom(front, f, y);
      var k :| 0 <= k < |front| && y in f(front[k]);
      assert xs[k] == front[k];
    } else {
      assert y in f(xs[|xs| - 1]);
    }
  }

  /** The offers of the client's entries the server supports. */
  function Offers(entries: seq<string>, supported: seq<Extension>): seq<Offer> {
    Gather(entries, (entry: string) => OfferOf(entry, supported))
  }

  /** The extensions of some offers. */
  function Exts(offers: seq<Offer>): (r: seq<Extension>)
    ensures |r| == |offers| && forall i :: 0 <= i < |offers| ==> r[i] == offers[i].0
  {
    if |offers| == 0 then [] else Exts(offers[..|offers| - 1]) + [offers[|offers| - 1].0]
  }

  /** The parameters of some offers. */
  function ParamsOf(offers: seq<Offer>): (r: seq<Dict<Value>>)
    ensures |r| == |offers| && forall i :: 0 <= i < |offers| ==> r[i] == offers[i].1
  {
    if |offers| == 0 then [] else ParamsOf(offers[..|offers| - 1]) + [offers[|offers| - 1].1]
  }

  /**
   * The loop over the client's entries that collects `extensions` and
   * `all_params`: the supported ones, each with its parameters (the two
   * parallel lists are one list of pairs here).
   */
  method CollectOffers(entries: seq<string>, supported: seq<Extension>) returns (offers: seq<Offer>)
    ensures offers == Offers(entries, supported)
  {
    offers := [];
    for i := 0 to |entries|
      invariant offers == Offers(entries[..i], supported)
    {
      var (name, params) := ParseParamHdr(entries[i]);
      OffersStep(entries, i, supported);
      match LastNamed(supported, name) {
        case Some(e) => offers := offers + [(e, params)];
        case None =>
      }
    }
    assert entries[..|entries|] == entries;
  }

  lemma OffersStep(entries: seq<string>, i: int, supported: seq<Extension>)
    requires 0 <= i < |entries|
    ensures Offers(entries[..i + 1], supported) == Offers(entries[..i], supported) + OfferOf(entries[i], supported)
  {
    assert entries[..i + 1][..i] == entries[..i];
  }

  /** Every offer is of a supported extension, under the name the client gave. */
  lemma OffersSupported(entries: seq<string>, supported: seq<Extension>)
    ensures forall o :: o in Offers(entries, supported) ==> (o.0 in supported
      && exists k :: 0 <= k < |entries| && ParseParamHdr(entries[k]) == (o.0.cls.name, o.1))
  {
    var f := (entry: string) => OfferOf(entry, supported);
    forall o | o in Offers(entries, supported)
      ensures o.0 in supported && exists k :: 0 <= k < |entries| && ParseParamHdr(entries[k]) == (o.0.cls.name, o.1)
    {
      GatherFrom(entries, f, o);
      var k :| 0 <= k < |entries| && o in f(entries[k]);
      OfferOfParsed(entries[k], supported);
    }
  }

  /** Offers keep the client's order: the offers of later entries come after those of earlier ones. */
  lemma OffersConcat(a: seq<string>, b: seq<string>, supported: seq<Extension>)
    ensures Offers(a + b, supported) == Offers(a, supported) + Offers(b, supported)
  {
    GatherConcat(a, b, (entry: string) => OfferOf(entry, supported));
  }

  lemma OfferAppended(offers: seq<Offer>, o: Offer)
    ensures Exts(offers + [o]) == Exts(offers) + [o.0]
  {
    assert (offers + [o])[..|offers|] == offers;
  }

  /**
   * `filter_extensions` over the offers: the greedy conflict filter, each
   * kept extension with the parameters it was offered with.
   */
  function KeepOffers(kept: seq<Offer>, rest: seq<Offer>): seq<Offer>
    decreases |rest|
  {
    if |rest| == 0 then kept
    else if Conflicts(rest[0].0, Exts(kept)) then KeepOffers(kept, rest[1..])
    else KeepOffers(kept + [rest[0]], rest[1..])
  }

  /** Filtering offers filters their extensions, and keeps only offers that were made. */
  lemma {:induction false} KeepOffersFilters(kept: seq<Offer>, rest: seq<Offer>)
    ensures Exts(KeepOffers(kept, rest)) == KeepCompatible(Exts(kept), Exts(rest))
    ensures forall o :: o in KeepOffers(kept, rest) ==> o in kept || o in rest
    decreases |rest|
  {
    if |rest| > 0 {
      assert Exts(rest)[0] == rest[0].0;
      assert Exts(rest[1..]) == Exts(rest)[1..];
      if Conflicts(rest[0].0, Exts(kept)) {
        KeepOffersFilters(kept, rest[1..]);
      } else {
        OfferAppended(kept, rest[0]);
        KeepOffersFilters(kept + [rest[0]], rest[1..]);
      }
      forall o | o in rest[1..]
        ensures o in rest
      {
      }
    }
  }

  /** The hooks of kept offers: `ext.Hook(**params)` of the base Hook. */
  function HooksOf(kept: seq<Offer>): (r: seq<Hook>)
    ensures |r| == |kept| && forall i :: 0 <= i < |kept| ==> r[i] == Hook(kept[i].0, kept[i].1)
  {
    seq(|kept|, i requires 0 <= i < |kept| => Hook(kept[i].0, kept[i].1))
  }

  /**
   * The server's negotiated extensions and their hooks: the filtered offers,
   * each hook made from an extension and the parameters the client gave it.
   */
  lemma NegotiatedHooks(offers: seq<Offer>)
    ensures var kept := KeepOffers([], offers);
      && Exts(kept) == FilterExtensions(Exts(offers))
      && forall h :: h in HooksOf(kept) ==> (h.extension, h.params) in offers
  {
    KeepOffersFilters([], offers);
  }

  /**
   * The hooks handshake.py makes: `zip(self.wsock.extensions, all_params)`
   * pairs the filtered extensions with the parameters of all offers by
   * position, so once an earlier offer is filtered out, the ones after it
   * get another offer's parameters.
   */
  function HooksAsWritten(offers: seq<Offer>): (r: seq<Hook>)
    ensures |r| <= |offers|
  {
    var exts, params := FilterExtensions(Exts(offers)), ParamsOf(offers);
    var n := if |exts| < |params| then |exts| else |params|;
    seq(n, i requires 0 <= i < n => Hook(exts[i], params[i]))
  }

  /**
   * Offers a (RSV1), b (RSV1, with x=1) and c (RSV2): b conflicts with a
   * and is dropped, and as written c's hook gets b's parameters.
   */
  lemma ZipMisalignsParams()
    ensures var a := Extension(ExtensionClass("a", true, false, false, [], [], []), [], []);
      var b := Extension(ExtensionClass("b", true, false, false, [], [], []), [], []);
      var c := Extension(ExtensionClass("c", false, true, false, [], [], []), [], []);
      var offers := [(a, []), (b, [("x", IntVal(1))]), (c, [])];
      && |HooksAsWritten(offers)| == 2 && HooksAsWritten(offers)[1] == Hook(c, [("x", IntVal(1))])
      && HooksOf(KeepOffers([], offers)) == [Hook(a, []), Hook(c, [])]
  {
    var a := Extension(ExtensionClass("a", true, false, false, [], [], []), [], []);
    var b := Extension(ExtensionClass("b", true, false, false, [], [], []), [], []);
    var c := Extension(ExtensionClass("c", false, true, false, [], [], []), [], []);
    assert Clashes(b, a);
    assert !SharesOpcode(c, a);
    SecondDropped(a, b, c, [], [("x", IntVal(1))], []);
  }

  /** Of three offers whose second clashes with the first and third does not, the second is dropped. */
  lemma SecondDropped(a: Extension, b: Extension, c: Extension, pa: Dict<Value>, pb: Dict<Value>, pc: Dict<Value>)
    requires Clashes(b, a) && !Clashes(c, a)
    ensures var offers := [(a, pa), (b, pb), (c, pc)];
      && FilterExtensions(Exts(offers)) == [a, c] && ParamsOf(offers) == [pa, pb, pc]
      && KeepOffers([], offers) == [(a, pa), (c, pc)]
  {
    var offers := [(a, pa), (b, pb), (c, pc)];
    assert Exts(offers) == [a, b, c];
    assert Conflicts(b, [a]) by {
      assert Clashes(b, [a][0]);
    }
    assert KeepCompatible([], [a, b, c]) == KeepCompatible([a], [b, c]) by {
      assert [a, b, c][1..] == [b, c] && [] + [a] == [a];
    }
    assert !Conflicts(c, [a]) by {
      forall j | 0 <= j < 1
        ensures !Clashes(c, [a][j])
      {
        assert [a][j] == a;
      }
    }
    assert KeepCompatible([a], [b, c]) == KeepCompatible([a], [c]) by {
      assert [b, c][1..] == [c];
    }
    assert KeepCompatible([a], [c]) == [a, c] by {
      assert [a] + [c] == [a, c];
    }
    assert KeepOffers([], offers) == KeepOffers([(a, pa)], offers[1..]) by {
      assert Exts([]) == [] && [] + [(a, pa)] == [(a, pa)];
    }
    assert Exts([(a, pa)]) == [a];
    assert KeepOffers([(a, pa)], offers[1..]) == KeepOffers([(a, pa)], [(c, pc)]) by {
      assert offers[1..][1..] == [(c, pc)];
    }
    assert KeepOffers([(a, pa)], [(c, pc)]) == [(a, pa), (c, pc)] by {
      assert [(c, pc)][0].0 == c && [(c, pc)][1..] == [];
      assert [(a, pa)] + [(c, pc)] == [(a, pa), (c, pc)];
    }
  }

  // ---------------------------------------------------------------- the accept token

  /** `b64encode(sha1(key.strip() + WS_GUID).digest())`: the server's answer to a key. */
  function AcceptToken(sha1: Sha1, key: string): (r: string)
    ensures |sha1(Strip(key) + WS_GUID)| == 20 ==> |r| == 28
  {
    var digest := sha1(Strip(key) + WS_GUID);
    assert |digest| == 20 ==> (|digest| + 2) / 3 == 7;
    Encode(digest)
  }

  /** The client's test of the answer: its stripped value against the token of its own key, unstripped. */
  predicate AcceptMatches(sha1: Sha1, key: string, accept: string) {
    Strip(accept) == Encode(sha1(key + WS_GUID))
  }

  /** `b64encode(os.urandom(16))`, with the random bytes given. */
  function ClientKey(nonce: seq<byte>): (r: string)
    ensures |nonce| == 16 ==> |r| == 24
  {
    Encode(nonce)
  }

  /** No letter of the alphabet is whitespace. */
  lemma LetterNotSpace(v: int)
    requires 0 <= v < 64
    ensures !IsSpace(Letter(v))
  {
  }

  /** Base64 text starts and ends with a letter or '=', never with whitespace. */
  lemma {:induction false} EncodeStripped(d: seq<byte>)
    ensures Stripped(Encode(d))
    decreases |d|
  {
    if |d| > 0 {
      LetterNotSpace(d[0] as int / 4);
    }
    if |d| == 2 {
      LetterNotSpace(d[0] as int % 4 * 16 + d[1] as int / 16);
    } else if |d| >= 3 {
      var q, rest := Quad(d[0], d[1], d[2]), Encode(d[3..]);
      EncodeStripped(d[3..]);
      LetterNotSpace(d[2] as int % 64);
      assert Encode(d) == q + rest;
    }
  }

  /** The token the server computes for the key the client sent passes the client's test. */
  lemma AcceptAgreement(sha1: Sha1, nonce: seq<byte>)
    ensures AcceptMatches(sha1, ClientKey(nonce), AcceptToken(sha1, ClientKey(nonce)))
  {
    var key := ClientKey(nonce);
    EncodeStripped(nonce);
    StripIdempotent(key);
    var token := AcceptToken(sha1, key);
    EncodeStripped(sha1(key + WS_GUID));
    StripIdempotent(token);
  }

  /** An answer made from another digest of the key fails the client's test. */
  lemma OtherDigestRefused(sha1: Sha1, other: Sha1, nonce: seq<byte>)
    requires other(ClientKey(nonce) + WS_GUID) != sha1(ClientKey(nonce) + WS_GUID)
    ensures !AcceptMatches(sha1, ClientKey(nonce), AcceptToken(other, ClientKey(nonce)))
  {
    var key := ClientKey(nonce);
    EncodeStripped(nonce);
    StripIdempotent(key);
    var token := AcceptToken(other, key);
    EncodeStripped(other(key + WS_GUID));
    StripIdempotent(token);
    if Encode(other(key + WS_GUID)) == Encode(sha1(key + WS_GUID)) {
      EncodeInjective(other(key + WS_GUID), sha1(key + WS_GUID));
    }
  }

  // ---------------------------------------------------------------- server: the answer

  /** A line of a handshake: the request or status line, or a header field. */
  datatype Line = Status(text: string) | Field(name: string, value: string)

  /** The value of the first field of a name. */
  function FieldOf(lines: seq<Line>, name: string): (r: Option<string>)
    ensures r.Some? ==> Field(name, r.value) in lines
    ensures r.None? ==> forall v :: Field(name, v) !in lines
  {
    if |lines| == 0 then None
    else if lines[0].Field? && lines[0].name == name then Some(lines[0].value)
    else
      var r := FieldOf(lines[1..], name);
      assert forall l :: l in lines ==> l == lines[0] || l in lines[1..];
      r
  }

  /** The name and requested parameters of each extension, as the Extensions header lists them. */
  function Requested(exts: seq<Extension>): (r: seq<(string, Dict<Value>)>)
    ensures |r| == |exts| && forall i :: 0 <= i < |exts| ==> r[i] == (exts[i].cls.name, exts[i].request)
  {
    seq(|exts|, i requires 0 <= i < |exts| => (exts[i].cls.name, exts[i].request))
  }

  const SWITCHING: string := "HTTP/1.1 " + "101" + " Web Socket Protocol Handshake"

  /** The lines every answer starts with. */
  function Opening(origin: string, location: string, accept: string): seq<Line> {
    [Status(SWITCHING), Field("Upgrade", "websocket"), Field("Connection", "Upgrade"),
     Field("WebSocket-Origin", origin), Field("WebSocket-Location", location), Field("Sec-WebSocket-Accept", accept)]
  }

  lemma OpeningFields(origin: string, location: string, accept: string)
    ensures var o := Opening(origin, location, accept);
      && FieldOf(o, "Sec-WebSocket-Accept") == Some(accept)
      && FieldOf(o, "Sec-WebSocket-Protocol").None? && FieldOf(o, "Sec-WebSocket-Extensions").None?
  {
    var o := Opening(origin, location, accept);
    var front := o[..5];
    assert o == front + [Field("Sec-WebSocket-Accept", accept)];
    FieldAbsent(front, "Sec-WebSocket-Accept");
    FieldAfter(front, [Field("Sec-WebSocket-Accept", accept)], "Sec-WebSocket-Accept");
    FieldAbsent(o, "Sec-WebSocket-Protocol");
    FieldAbsent(o, "Sec-WebSocket-Extensions");
  }

  /** Lines without a field of a name have no value for it. */
  lemma {:induction false} FieldAbsent(lines: seq<Line>, name: string)
    requires forall i :: 0 <= i < |lines| ==> !(lines[i].Field? && lines[i].name == name)
    ensures FieldOf(lines, name).None?
    decreases |lines|
  {
    if |lines| > 0 {
      FieldAbsent(lines[1..], name);
    }
  }

  /**
   * The lines `response_headers` yields: the status, Upgrade, Connection,
   * the origin, the location and the accept token; the protocol when one
   * was chosen and is not empty; the extensions when there are any.
   */
  function ServerLines(origin: string, location: string, accept: string, protocol: Option<string>,
                       exts: seq<Extension>): (r: seq<Line>)
    ensures |r| >= 6 && r[0] == Status(SWITCHING)
  {
    Opening(origin, location, accept)
    + (if protocol.Some? && protocol.value != "" then [Field("Sec-WebSocket-Protocol", protocol.value)] else [])
    + (if |exts| > 0 then [Field("Sec-WebSocket-Extensions", ExtensionsHeader(Requested(exts)))] else [])
  }

  /**
   * The answer carries the accept token, the protocol exactly when one was
   * chosen and is not empty, and the extensions' names and requested
   * parameters exactly when there are any.
   */
  lemma ServerLinesFields(origin: string, location: string, accept: string, protocol: Option<string>,
                          exts: seq<Extension>)
    ensures var r := ServerLines(origin, location, accept, protocol, exts);
      && FieldOf(r, "Sec-WebSocket-Accept") == Some(accept)
      && FieldOf(r, "Sec-WebSocket-Protocol") == (if protocol.Some? && protocol.value != "" then protocol else None)
      && FieldOf(r, "Sec-WebSocket-Extensions") == (if |exts| > 0 then Some(ExtensionsHeader(Requested(exts))) else None)
  {
    var opening := Opening(origin, location, accept);
    var proto: seq<Line> := if protocol.Some? && protocol.value != "" then [Field("Sec-WebSocket-Protocol", protocol.value)] else [];
    var ext: seq<Line> := if |exts| > 0 then [Field("Sec-WebSocket-Extensions", ExtensionsHeader(Requested(exts)))] else [];
    assert ServerLines(origin, location, accept, protocol, exts) == opening + (proto + ext);
    OpeningFields(origin, location, accept);
    TailFields(opening, proto, ext, accept, protocol, if |exts| > 0 then Some(ExtensionsHeader(Requested(exts))) else None);
  }

  /** The lines after the opening add the protocol and extension fields, and leave the accept token first. */
  lemma TailFields(opening: seq<Line>, proto: seq<Line>, ext: seq<Line>, accept: string,
                   protocol: Option<string>, header: Option<string>)
    requires FieldOf(opening, "Sec-WebSocket-Accept") == Some(accept)
    requires FieldOf(opening, "Sec-WebSocket-Protocol").None? && FieldOf(opening, "Sec-WebSocket-Extensions").None?
    requires proto == if protocol.Some? && protocol.value != "" then [Field("Sec-WebSocket-Protocol", protocol.value)] else []
    requires ext == if header.Some? then [Field("Sec-WebSocket-Extensions", header.value)] else []
    ensures FieldOf(opening + (proto + ext), "Sec-WebSocket-Accept") == Some(accept)
    ensures FieldOf(opening + (proto + ext), "Sec-WebSocket-Protocol") == (if protocol.Some? && protocol.value != "" then protocol else None)
    ensures FieldOf(opening + (proto + ext), "Sec-WebSocket-Extensions") == header
  {
    FieldPrefix(opening, proto + ext, "Sec-WebSocket-Accept");
    FieldAfter(opening, proto + ext, "Sec-WebSocket-Protocol");
    FieldAfter(opening, proto + ext, "Sec-WebSocket-Extensions");
    FieldAfter(proto, ext, "Sec-WebSocket-Extensions");
    if |proto| > 0 {
      FieldPrefix(proto, ext, "Sec-WebSocket-Protocol");
    } else {
      assert proto + ext == ext;
    }
  }

  /** A field found in the front is the one found in the whole. */
  lemma {:induction false} FieldPrefix(front: seq<Line>, back: seq<Line>, name: string)
    requires FieldOf(front, name).Some?
    ensures FieldOf(front + back, name) == FieldOf(front, name)
    decreases |front|
  {
    assert (front + back)[0] == front[0];
    if !(front[0].Field? && front[0].name == name) {
      assert (front + back)[1..] == front[1..] + back;
      FieldPrefix(front[1..], back, name);
    }
  }

  /** Looking a name up in lines where the front has no field of that name. */
  lemma {:induction false} FieldAfter(front: seq<Line>, back: seq<Line>, name: string)
    requires FieldOf(front, name).None?
    ensures FieldOf(front + back, name) == FieldOf(back, name)
    decreases |front|
  {
    if |front| > 0 {
      assert (front + back)[1..] == front[1..] + back;
      assert (front + back)[0] == front[0];
      FieldAfter(front[1..], back, name);
    } else {
      assert front + back == back;
    }
  }

  // ---------------------------------------------------------------- the websocket object

  /** The websocket object a handshake works on: the attributes handshake.py reads and sets on `wsock`. */
  class Endpoint {
    var location: string
    var protocols: seq<string>
    var protocol: Option<string>
    var extensions: seq<Extension>
    /** The hooks `add_hook` registered during negotiation, in order. */
    var hooks: seq<Hook>
    var trustedOrigins: seq<string>
    var origin: string
    var auth: Option<(string, string)>
    var secure: bool
    /** A failed check has closed the socket. */
    var closed: bool

    /** The settings no handshake step changes. */
    function Settings(): (seq<string>, seq<string>, string, Option<(string, string)>, bool)
      reads this
    {
      (protocols, trustedOrigins, origin, auth, secure)
    }

    constructor(location: string, protocols: seq<string>, extensions: seq<Extension>,
                trustedOrigins: seq<string>, origin: string, auth: Option<(string, string)>, secure: bool)
      ensures this.location == location && this.protocols == protocols && this.extensions == extensions
      ensures this.trustedOrigins == trustedOrigins && this.origin == origin && this.auth == auth
      ensures this.secure == secure && protocol.None? && hooks == [] && !closed
    {
      this.location := location;
      this.protocols := protocols;
      this.extensions := extensions;
      this.trustedOrigins := trustedOrigins;
      this.origin := origin;
      this.auth := auth;
      this.secure := secure;
      protocol := None;
      hooks := [];
      closed := false;
    }
  }

  // ---------------------------------------------------------------- server: the whole answer

  /** The protocols the client offers: its Sec-WebSocket-Protocol split at ',' and stripped. */
  function ClientProtocols(headers: Dict<string>): seq<string> {
    match Get(headers, "Sec-WebSocket-Protocol")
    case Some(v) => SplitStripped(v, ',', -1)
    case None => []
  }

  /** The offers that survive negotiation: none without a Sec-WebSocket-Extensions header. */
  function Negotiated(headers: Dict<string>, supported: seq<Extension>): seq<Offer> {
    match Get(headers, "Sec-WebSocket-Extensions")
    case Some(v) => KeepOffers([], Offers(SplitStripped(v, ',', -1), supported))
    case None => []
  }

  /** `ws://host/location`, or `wss://` on a secure socket. */
  function Location(secure: bool, host: string, path: string): string {
    (if secure then "wss" else "ws") + "://" + host + path
  }

  /**
   * The extension part of `response_headers`: without a
   * Sec-WebSocket-Extensions header no extensions; with one, the filtered
   * offers, each registering the hook made from its parameters.
   */
  method NegotiateExtensions(ws: Endpoint, headers: Dict<string>)
    modifies ws
    ensures ws.extensions == Exts(Negotiated(headers, old(ws.extensions)))
    ensures ws.hooks == old(ws.hooks) + HooksOf(Negotiated(headers, old(ws.extensions)))
    ensures ws.location == old(ws.location) && ws.protocols == old(ws.protocols) && ws.secure == old(ws.secure)
    ensures ws.trustedOrigins == old(ws.trustedOrigins) && ws.origin == old(ws.origin) && ws.auth == old(ws.auth)
    ensures ws.protocol == old(ws.protocol) && ws.closed == old(ws.closed)
  {
    match Get(headers, "Sec-WebSocket-Extensions") {
      case Some(v) =>
        var offers := CollectOffers(SplitStripped(v, ',', -1), ws.extensions);
        var kept := KeepOffers([], offers);
        ws.extensions := Exts(kept);
        ws.hooks := ws.hooks + HooksOf(kept);
      case None =>
        ws.extensions := [];
    }
  }

  /** An acceptable request carries the headers the answer reads. */
  lemma AcceptableCarries(headers: Dict<string>, trusted: seq<string>)
    requires RequestAcceptable(headers, trusted)
    ensures Get(headers, "Host").Some? && Get(headers, "Sec-WebSocket-Key").Some?
    ensures CheckRequest(headers, trusted).Ok?
  {
  }

  /** The answer to an acceptable request, once the protocol and extensions are chosen. */
  function Answer(headers: Dict<string>, trusted: seq<string>, secure: bool, path: string, sha1: Sha1,
                  protocol: Option<string>, exts: seq<Extension>): (r: seq<Line>)
    requires RequestAcceptable(headers, trusted)
    ensures |r| >= 6 && r[0] == Status(SWITCHING)
  {
    AcceptableCarries(headers, trusted);
    ServerLines(CheckRequest(headers, trusted).value, Location(secure, Get(headers, "Host").value, path),
      AcceptToken(sha1, Get(headers, "Sec-WebSocket-Key").value), protocol, exts)
  }

  /**
   * `ServerHandshake.response_headers`: on a request that fails a check,
   * the socket is closed and nothing else changes; otherwise the chosen
   * protocol and the negotiated extensions are stored, one hook is
   * registered per extension, and the answer's lines are returned.
   */
  method ServerResponse(ws: Endpoint, headers: Dict<string>, sha1: Sha1) returns (r: Result<seq<Line>>)
    modifies ws
    ensures r.Ok? <==> RequestAcceptable(headers, old(ws.trustedOrigins))
    ensures ws.location == old(ws.location) && ws.protocols == old(ws.protocols) && ws.secure == old(ws.secure)
    ensures ws.trustedOrigins == old(ws.trustedOrigins) && ws.origin == old(ws.origin) && ws.auth == old(ws.auth)
    ensures r.Err? ==> (CheckRequest(headers, ws.trustedOrigins) == Err(r.error) && ws.closed
      && ws.protocol == old(ws.protocol) && ws.extensions == old(ws.extensions) && ws.hooks == old(ws.hooks))
    ensures r.Ok? ==> (ws.closed == old(ws.closed)
      && FirstSupported(ClientProtocols(headers), ws.protocols, ws.protocol)
      && ws.extensions == Exts(Negotiated(headers, old(ws.extensions)))
      && ws.hooks == old(ws.hooks) + HooksOf(Negotiated(headers, old(ws.extensions)))
      && r.value == Answer(headers, ws.trustedOrigins, ws.secure, ws.location, sha1, ws.protocol, ws.extensions))
  {
    var check := CheckRequest(headers, ws.trustedOrigins);
    if check.Err? {
      ws.closed := true;
      return Err(check.error);
    }
    AcceptableCarries(headers, ws.trustedOrigins);
    var origin := check.value;

    var clientProto := ClientProtocols(headers);
    ws.protocol := SelectProtocol(clientProto, ws.protocols);

    NegotiateExtensions(ws, headers);

    var accept := AcceptToken(sha1, Get(headers, "Sec-WebSocket-Key").value);
    var location := Location(ws.secure, Get(headers, "Host").value, ws.location);
    r := Ok(ServerLines(origin, location, accept, ws.protocol, ws.extensions));
  }

  /**
   * `re.search(r'^GET (.*) HTTP/1.1\r\n', raw)` on the first line of a
   * request: what lies between "GET " and the " HTTP/1.1" that ends the
   * line. The pattern's unescaped '.' lets any character stand between the
   * two 1s.
   */
  function TargetOf(line: string): (r: Option<string>)
    ensures r.Some? ==> exists c :: line == "GET " + r.value + " HTTP/1" + [c] + "1"
    ensures r.None? ==> forall t, c :: line != "GET " + t + " HTTP/1" + [c] + "1"
  {
    if |line| >= 13 && line[..4] == "GET " && line[|line| - 9..|line| - 2] == " HTTP/1" && line[|line| - 1] == '1' then
      var t := line[4..|line| - 9];
      assert line == "GET " + t + " HTTP/1" + [line[|line| - 2]] + "1";
      Some(t)
    else
      None
  }

  /** The request line a client writes reads back as its location. */
  lemma RequestLineRead(location: string)
    ensures TargetOf("GET " + location + " HTTP/1.1") == Some(location)
  {
    var line := "GET " + location + " HTTP/1.1";
    assert line == "GET " + location + " HTTP/1" + ['.'] + "1";
    assert line[..4] == "GET " && line[4..|line| - 9] == location;
  }

  /**
   * `ServerHandshake.perform`: a first line that is not a GET request
   * closes the socket; otherwise its target becomes the location, the
   * fields are merged as `receive_headers` merges them, and the answer is
   * that of `response_headers`.
   */
  method ServerPerform(ws: Endpoint, line: string, raw: Fields, sha1: Sha1) returns (r: Result<seq<Line>>)
    modifies ws
    ensures TargetOf(line).None? ==> r == Err(HandshakeError(NotGetRequest)) && ws.closed
    ensures TargetOf(line).Some? ==> ws.location == TargetOf(line).value
    ensures r.Ok? <==> TargetOf(line).Some? && RequestAcceptable(MergedHeaders(raw), old(ws.trustedOrigins))
    ensures ws.Settings() == old(ws.Settings())
    ensures r.Err? ==> (ws.closed && ws.protocol == old(ws.protocol)
      && ws.extensions == old(ws.extensions) && ws.hooks == old(ws.hooks))
    ensures TargetOf(line).Some? && r.Err? ==> CheckRequest(MergedHeaders(raw), old(ws.trustedOrigins)) == Err(r.error)
    ensures r.Ok? ==> (ws.closed == old(ws.closed)
      && FirstSupported(ClientProtocols(MergedHeaders(raw)), ws.protocols, ws.protocol)
      && ws.extensions == Exts(Negotiated(MergedHeaders(raw), old(ws.extensions)))
      && ws.hooks == old(ws.hooks) + HooksOf(Negotiated(MergedHeaders(raw), old(ws.extensions)))
      && r.value == Answer(MergedHeaders(raw), ws.trustedOrigins, ws.secure, ws.location, sha1, ws.protocol, ws.extensions))
  {
    var target := TargetOf(line);
    if target.None? {
      ws.closed := true;
      return Err(HandshakeError(NotGetRequest));
    }
    ws.location := target.value;
    var headers := ReceiveHeaders(raw);
    r := ServerResponse(ws, headers, sha1);
  }
}
