/**
 * The client end of handshake.py: `ClientHandshake` writes the request,
 * dispatches on the status of the answer, checks a 101 answer and takes
 * over the extensions and protocol the server chose, answers an
 * authentication challenge and follows redirects.
 */
module ClientHandshakes {
  import opened Errors
  import opened Octets
  import opened Strings
  import opened Dicts
  import opened Extensions
  import opened Base64
  import opened ParamHeaders
  import opened Handshakes

  // ---------------------------------------------------------------- the request

  /** `'%s:%d' % address`: the host, a colon, and the port in decimal digits. */
  function HostValue(peer: (string, nat)): (r: string)
    ensures IsPrefix(peer.0 + ":", r)
    ensures IsDigits(r[|peer.0| + 1..]) && ParseNat(r[|peer.0| + 1..]) == peer.1
  {
    ParseNatToString(peer.1);
    var r := peer.0 + ":" + NatToString(peer.1);
    assert r[|peer.0| + 1..] == NatToString(peer.1);
    r
  }

  /** The lines every request starts with. */
  function RequestStart(location: string, peer: (string, nat), key: string): seq<Line> {
    [Status("GET " + location + " HTTP/1.1"), Field("Host", HostValue(peer)), Field("Upgrade", "websocket"),
     Field("Connection", "keep-alive, Upgrade"), Field("Sec-WebSocket-Key", key), Field("Sec-WebSocket-Version", WS_VERSION)]
  }

  /**
   * The lines `request_headers` yields: the request line, Host, Upgrade,
   * Connection, the key and the version; the origin when there is one; the
   * two cache controls; the protocols and the extensions when there are any.
   */
  function RequestLines(location: string, peer: (string, nat), key: string, origin: string,
                        protocols: seq<string>, exts: seq<Extension>): (r: seq<Line>)
    ensures |r| >= 8 && r[0] == Status("GET " + location + " HTTP/1.1")
  {
    RequestStart(location, peer, key)
    + (if origin != "" then [Field("Origin", origin)] else [])
    + [Field("Pragma", "no-cache"), Field("Cache-Control", "no-cache")]
    + (if |protocols| > 0 then [Field("Sec-WebSocket-Protocol", Join(protocols, ", "))] else [])
    + (if |exts| > 0 then [Field("Sec-WebSocket-Extensions", ExtensionsHeader(Requested(exts)))] else [])
  }

  /** The request names the key it was made with; no other key field comes first. */
  lemma RequestCarriesKey(location: string, peer: (string, nat), key: string, origin: string,
                          protocols: seq<string>, exts: seq<Extension>)
    ensures FieldOf(RequestLines(location, peer, key, origin, protocols, exts), "Sec-WebSocket-Key") == Some(key)
  {
    var start := RequestStart(location, peer, key);
    var r := RequestLines(location, peer, key, origin, protocols, exts);
    assert r == start + r[6..];
    assert FieldOf(start, "Sec-WebSocket-Key") == Some(key) by {
      assert start[4..] == [Field("Sec-WebSocket-Key", key), Field("Sec-WebSocket-Version", WS_VERSION)];
      assert FieldOf(start[4..], "Sec-WebSocket-Key") == Some(key);
      FieldAfter(start[..4], start[4..], "Sec-WebSocket-Key");
      assert start == start[..4] + start[4..];
    }
    FieldPrefix(start, r[6..], "Sec-WebSocket-Key");
  }

  // ---------------------------------------------------------------- the status line

  /**
   * `re.search(r'^HTTP/1\.1 (\d{3})', raw)` and `int(match.group(1))`: the
   * three digits after "HTTP/1.1 " at the start of the answer, or None.
   */
  function StatusOf(line: string): (r: Option<nat>)
    ensures r.Some? <==> |line| >= 12 && line[..9] == "HTTP/1.1 " && IsDigits(line[9..12])
  {
    if |line| >= 12 && line[..9] == "HTTP/1.1 " && IsDigits(line[9..12]) then Some(ParseNat(line[9..12]))
    else None
  }

  /** A three-digit status written after "HTTP/1.1 " reads back as itself. */
  lemma StatusRead(code: nat, rest: string)
    requires 100 <= code < 1000
    ensures StatusOf("HTTP/1.1 " + NatToString(code) + rest) == Some(code)
  {
    var digits := NatToString(code);
    assert |NatToString(code / 100)| == 1;
    assert |NatToString(code / 10)| == 2;
    var line := "HTTP/1.1 " + digits + rest;
    assert line[..9] == "HTTP/1.1 " && line[9..12] == digits;
    ParseNatToString(code);
  }

  lemma StatusDigits(digits: string, rest: string)
    requires |digits| == 3 && IsDigits(digits)
    ensures StatusOf("HTTP/1.1 " + digits + rest) == Some(ParseNat(digits))
  {
    var line := "HTTP/1.1 " + digits + rest;
    assert line[..9] == "HTTP/1.1 " && line[9..12] == digits;
  }

  /** The server's status line is read as 101. */
  lemma SwitchingIs101()
    ensures StatusOf(SWITCHING) == Some(101)
  {
    StatusDigits("101", " Web Socket Protocol Handshake");
    assert ParseNat("1") == 1;
    assert ParseNat("10") == 10;
  }

  /** The statuses `handle_response` sends to `handle_redirect`. */
  predicate IsRedirect(status: nat) {
    status == 301 || status == 302 || status == 303 || status == 307 || status == 308
  }

  /** The statuses `handle_response` has a handler for. */
  predicate Handled(status: nat) {
    status == 101 || status == 401 || IsRedirect(status)
  }

  // ---------------------------------------------------------------- checking a 101 answer

  /** What `handle_handshake` demands before it looks at extensions and protocol. */
  predicate AnswerValid(headers: Dict<string>, key: string, sha1: Sha1) {
    && Get(headers, "Upgrade").Some? && Get(headers, "Connection").Some?
    && Get(headers, "Sec-WebSocket-Accept").Some?
    && HasKeyword(Get(headers, "Upgrade").value, "websocket")
    && HasKeyword(Get(headers, "Connection").value, "upgrade")
    && AcceptMatches(sha1, key, Get(headers, "Sec-WebSocket-Accept").value)
  }

  /**
   * The first checks of `handle_handshake`, failing at the first that does
   * not hold: a missing Upgrade, Connection or Sec-WebSocket-Accept (in that
   * order), no "websocket" in Upgrade, no "upgrade" in Connection, then an
   * accept token other than the one the key calls for.
   */
  function CheckAnswer(headers: Dict<string>, key: string, sha1: Sha1): (r: Result<()>)
    ensures r.Ok? <==> AnswerValid(headers, key, sha1)
    ensures Get(headers, "Upgrade").None? ==> r == Err(HandshakeError(MissingHeader("Upgrade")))
    ensures Get(headers, "Upgrade").Some? && Get(headers, "Connection").None? ==>
      r == Err(HandshakeError(MissingHeader("Connection")))
  {
    if Get(headers, "Upgrade").None? then Err(HandshakeError(MissingHeader("Upgrade")))
    else if Get(headers, "Connection").None? then Err(HandshakeError(MissingHeader("Connection")))
    else if Get(headers, "Sec-WebSocket-Accept").None? then Err(HandshakeError(MissingHeader("Sec-WebSocket-Accept")))
    else if !HasKeyword(Get(headers, "Upgrade").value, "websocket") then Err(HandshakeError(UpgradeWithoutWebsocket))
    else if !HasKeyword(Get(headers, "Connection").value, "upgrade") then Err(HandshakeError(ConnectionWithoutUpgrade))
    else
      var accept := Get(headers, "Sec-WebSocket-Accept").value;
      if !AcceptMatches(sha1, key, accept) then Err(HandshakeError(InvalidAccept(Strip(accept))))
      else Ok(())
  }

  /** What the client makes of one entry of the answer: an extension to take over, or a name it refuses. */
  datatype Pick = Take(offer: Offer) | Refuse(name: string)

  type Picker = string -> Pick

  /** The extension an entry names, with the entry's parameters, when the client supports that name. */
  function PickOf(entry: string, supported: seq<Extension>): Pick {
    var (name, params) := ParseParamHdr(entry);
    match LastNamed(supported, name)
    case None => Refuse(name)
    case Some(e) => Take((e, params))
  }

  function PickFor(supported: seq<Extension>): Picker {
    entry => PickOf(entry, supported)
  }

  /**
   * The extensions of the server's answer as the client reads them: the
   * extension and parameters of each entry, in order, up to the first entry
   * whose name the client does not support, and that name.
   */
  function Adopted(entries: seq<string>, pick: Picker): (r: (seq<Offer>, Option<string>))
    ensures |r.0| <= |entries|
  {
    if |entries| == 0 then ([], None)
    else
      var front := Adopted(entries[..|entries| - 1], pick);
      if front.1.Some? then front
      else
        match pick(entries[|entries| - 1])
        case Refuse(name) => (front.0, Some(name))
        case Take(o) => (front.0 + [o], None)
  }

  lemma AdoptStep(entries: seq<string>, i: nat, pick: Picker)
    requires i < |entries| && Adopted(entries[..i], pick).1.None?
    ensures Adopted(entries[..i + 1], pick) ==
      match pick(entries[i])
      case Refuse(name) => (Adopted(entries[..i], pick).0, Some(name))
      case Take(o) => (Adopted(entries[..i], pick).0 + [o], None)
  {
    assert entries[..i + 1][..i] == entries[..i];
  }

  /** Once an unsupported name is met, later entries change nothing. */
  lemma {:induction false} AdoptedStops(entries: seq<string>, n: nat, pick: Picker)
    requires n <= |entries| && Adopted(entries[..n], pick).1.Some?
    ensures Adopted(entries, pick) == Adopted(entries[..n], pick)
    decreases |entries|
  {
    if n < |entries| {
      var front := entries[..|entries| - 1];
      assert front[..n] == entries[..n];
      AdoptedStops(front, n, pick);
    } else {
      assert entries[..n] == entries;
    }
  }

  /** The client reports no unsupported name exactly when it takes every entry. */
  lemma {:induction false} AdoptedComplete(entries: seq<string>, pick: Picker)
    ensures Adopted(entries, pick).1.None? <==> forall k :: 0 <= k < |entries| ==> pick(entries[k]).Take?
    decreases |entries|
  {
    if |entries| > 0 {
      var front := entries[..|entries| - 1];
      AdoptedComplete(front, pick);
      assert forall k :: 0 <= k < |front| ==> front[k] == entries[k];
    }
  }

  /**
   * What the client takes over is its own: every extension taken is one it
   * supports, and a name reported is one no extension of it has.
   */
  lemma {:induction false} AdoptedSupported(entries: seq<string>, supported: seq<Extension>)
    ensures forall o :: o in Adopted(entries, PickFor(supported)).0 ==> o.0 in supported
    ensures Adopted(entries, PickFor(supported)).1.Some? ==>
      LastNamed(supported, Adopted(entries, PickFor(supported)).1.value).None?
    decreases |entries|
  {
    if |entries| > 0 {
      AdoptedSupported(entries[..|entries| - 1], supported);
      var p := PickOf(entries[|entries| - 1], supported);
      assert PickFor(supported)(entries[|entries| - 1]) == p;
    }
  }

  /**
   * The extensions loop of `handle_handshake`, when the answer has a
   * Sec-WebSocket-Extensions header: the client's extensions are replaced
   * by those the server named, each registering the hook its parameters
   * make; a name the client does not support raises, without closing the
   * socket and after the entries before it were taken over.
   */
  method AdoptExtensions(ws: Endpoint, entries: seq<string>) returns (r: Result<()>)
    modifies ws
    ensures ws.extensions == Exts(Adopted(entries, PickFor(old(ws.extensions))).0)
    ensures ws.hooks == old(ws.hooks) + HooksOf(Adopted(entries, PickFor(old(ws.extensions))).0)
    ensures r == match Adopted(entries, PickFor(old(ws.extensions))).1
      case Some(name) => Err(HandshakeError(UnsupportedExtension(name)))
      case None => Ok(())
    ensures ws.Settings() == old(ws.Settings()) && ws.location == old(ws.location)
    ensures ws.protocol == old(ws.protocol) && ws.closed == old(ws.closed)
  {
    var supported := ws.extensions;
    ghost var pick := PickFor(supported);
    ghost var taken: seq<Offer> := [];
    ws.extensions := [];
    for i := 0 to |entries|
      invariant Adopted(entries[..i], pick) == (taken, None)
      invariant ws.extensions == Exts(taken) && ws.hooks == old(ws.hooks) + HooksOf(taken)
      invariant ws.Settings() == old(ws.Settings()) && ws.location == old(ws.location)
      invariant ws.protocol == old(ws.protocol) && ws.closed == old(ws.closed)
    {
      AdoptStep(entries, i, pick);
      var picked := PickOf(entries[i], supported);
      assert pick(entries[i]) == picked;
      match picked {
        case Refuse(name) =>
          AdoptedStops(entries, i + 1, pick);
          return Err(HandshakeError(UnsupportedExtension(name)));
        case Take(o) =>
          Appended(taken, o, ws.extensions, ws.hooks, old(ws.hooks));
          TakeOver(ws, o);
          taken := taken + [o];
      }
    }
    assert entries[..|entries|] == entries;
    r := Ok(());
  }

  /** `extensions.append(ext)` and `add_hook` of the hook its parameters make. */
  method TakeOver(ws: Endpoint, o: Offer)
    modifies ws
    ensures ws.extensions == old(ws.extensions) + [o.0] && ws.hooks == old(ws.hooks) + [Hook(o.0, o.1)]
    ensures ws.Settings() == old(ws.Settings()) && ws.location == old(ws.location)
    ensures ws.protocol == old(ws.protocol) && ws.closed == old(ws.closed)
  {
    ws.extensions := ws.extensions + [o.0];
    ws.hooks := ws.hooks + [Hook(o.0, o.1)];
  }

  lemma Appended(taken: seq<Offer>, o: Offer, exts: seq<Extension>, hooks: seq<Hook>, before: seq<Hook>)
    requires exts == Exts(taken) && hooks == before + HooksOf(taken)
    ensures exts + [o.0] == Exts(taken + [o]) && hooks + [Hook(o.0, o.1)] == before + HooksOf(taken + [o])
  {
    OfferAppended(taken, o);
    HooksAppended(before, taken, o);
  }

  lemma HooksAppended(before: seq<Hook>, offers: seq<Offer>, o: Offer)
    ensures before + HooksOf(offers + [o]) == before + HooksOf(offers) + [Hook(o.0, o.1)]
  {
    assert HooksOf(offers + [o]) == HooksOf(offers) + [Hook(o.0, o.1)];
  }

  /** The entries of the answer's Sec-WebSocket-Extensions header, none when it has none. */
  function AnswerEntries(headers: Dict<string>): seq<string> {
    match Get(headers, "Sec-WebSocket-Extensions")
    case Some(v) => SplitStripped(v, ',', -1)
    case None => []
  }

  /**
   * The protocol part of `handle_handshake`: a protocol the answer names
   * must be "null" or one the client offered, or the socket is closed; it
   * becomes the websocket's protocol.
   */
  method AdoptProtocol(ws: Endpoint, headers: Dict<string>) returns (r: Result<()>)
    modifies ws
    ensures r.Ok? <==> ProtocolAllowed(headers, ws.protocols)
    ensures r.Ok? ==> (ws.closed == old(ws.closed)
      && ws.protocol == if Get(headers, "Sec-WebSocket-Protocol").Some? then Get(headers, "Sec-WebSocket-Protocol") else old(ws.protocol))
    ensures r.Err? ==> (ws.closed && ws.protocol == old(ws.protocol)
      && r == Err(HandshakeError(UnsupportedProtocol(Get(headers, "Sec-WebSocket-Protocol").value))))
    ensures ws.extensions == old(ws.extensions) && ws.hooks == old(ws.hooks)
    ensures ws.Settings() == old(ws.Settings()) && ws.location == old(ws.location)
  {
    var protocol := Get(headers, "Sec-WebSocket-Protocol");
    if protocol.Some? {
      if protocol.value != "null" && protocol.value !in ws.protocols {
        ws.closed := true;
        return Err(HandshakeError(UnsupportedProtocol(protocol.value)));
      }
      ws.protocol := protocol;
    }
    r := Ok(());
  }

  /** The protocol an answer may name: none, "null", or one the client offered. */
  predicate ProtocolAllowed(headers: Dict<string>, protocols: seq<string>) {
    match Get(headers, "Sec-WebSocket-Protocol")
    case None => true
    case Some(p) => p == "null" || p in protocols
  }

  /** Everything `handle_handshake` demands of a 101 answer. */
  predicate AnswerAccepted(headers: Dict<string>, key: string, sha1: Sha1, supported: seq<Extension>,
                           protocols: seq<string>) {
    && AnswerValid(headers, key, sha1)
    && Adopted(AnswerEntries(headers), PickFor(supported)).1.None?
    && ProtocolAllowed(headers, protocols)
  }

  /**
   * `handle_handshake`: the answer's checks, failing (and closing) at the
   * first that does not hold; then the extensions the server named, when
   * it named any, replace the client's; then the protocol it named, which
   * must be "null" or one the client offered, becomes the websocket's.
   */
  method CheckHandshake(ws: Endpoint, headers: Dict<string>, key: string, sha1: Sha1) returns (r: Result<()>)
    modifies ws
    ensures r.Ok? <==> AnswerAccepted(headers, key, sha1, old(ws.extensions), ws.protocols)
    ensures CheckAnswer(headers, key, sha1).Err? ==> r == CheckAnswer(headers, key, sha1) && ws.closed
    ensures r.Ok? && Get(headers, "Sec-WebSocket-Extensions").Some? ==>
      var taken := Adopted(AnswerEntries(headers), PickFor(old(ws.extensions))).0;
      ws.extensions == Exts(taken) && ws.hooks == old(ws.hooks) + HooksOf(taken)
    ensures r.Ok? && Get(headers, "Sec-WebSocket-Extensions").None? ==>
      ws.extensions == old(ws.extensions) && ws.hooks == old(ws.hooks)
    ensures r.Ok? && Get(headers, "Sec-WebSocket-Protocol").Some? ==>
      ws.protocol == Get(headers, "Sec-WebSocket-Protocol")
    ensures r.Ok? && Get(headers, "Sec-WebSocket-Protocol").None? ==> ws.protocol == old(ws.protocol)
    ensures r.Ok? ==> ws.closed == old(ws.closed)
    ensures CheckAnswer(headers, key, sha1).Ok? && Get(headers, "Sec-WebSocket-Extensions").Some? ==>
      var refused := Adopted(AnswerEntries(headers), PickFor(old(ws.extensions))).1;
      refused.Some? ==> (r == Err(HandshakeError(UnsupportedExtension(refused.value)))
        && ws.closed == old(ws.closed) && ws.protocol == old(ws.protocol))
    ensures (CheckAnswer(headers, key, sha1).Ok? && !ProtocolAllowed(headers, ws.protocols)
      && (Get(headers, "Sec-WebSocket-Extensions").None?
          || Adopted(AnswerEntries(headers), PickFor(old(ws.extensions))).1.None?)) ==>
      (r == Err(HandshakeError(UnsupportedProtocol(Get(headers, "Sec-WebSocket-Protocol").value)))
        && ws.closed && ws.protocol == old(ws.protocol))
    ensures ws.Settings() == old(ws.Settings()) && ws.location == old(ws.location)
  {
    var check := CheckAnswer(headers, key, sha1);
    if check.Err? {
      ws.closed := true;
      return check;
    }
    if Get(headers, "Sec-WebSocket-Extensions").Some? {
      r := AdoptExtensions(ws, AnswerEntries(headers));
      if r.Err? {
        return;
      }
    }
    r := AdoptProtocol(ws, headers);
  }

  // ---------------------------------------------------------------- authentication

  /** The authentication modes the client answers. */
  predicate KnownMode(mode: string) {
    mode == "Basic" || mode == "Digest"
  }

  /** `hdr.lstrip().split(' ', 1)[0]`: the first word of the challenge. */
  function AuthMode(challenge: string): (r: string)
    ensures ' ' !in r && IsPrefix(r, StripLeft(challenge))
    ensures ' ' !in StripLeft(challenge) ==> r == StripLeft(challenge)
  {
    Split(StripLeft(challenge), ' ', 1)[0]
  }

  /** The functions the client calls but are not modelled: SHA-1, urlparse, UTF-8, the challenge parser and the digest builder. */
  datatype Url = Url(netloc: string, hostname: string, port: Option<nat>, path: string)

  datatype DigestInput = DigestInput(username: string, password: string, uri: string,
                                     realm: string, nonce: string, opaqueValue: string)

  datatype Env = Env(sha1: Sha1, urlparse: string -> Url, utf8: string -> seq<byte>,
                     challenge: string -> Dict<string>, digest: DigestInput -> string)

  /** `'Basic ' + b64encode(u + ':' + p)` of the UTF-8 encoded user and password. */
  function BasicAuthorization(utf8: string -> seq<byte>, user: string, password: string): (r: string)
    ensures IsPrefix("Basic ", r)
  {
    "Basic " + Encode(utf8(user) + [58 as byte] + utf8(password))
  }

  /** The server reads the user and password back out of the Basic value. */
  lemma BasicDecodes(utf8: string -> seq<byte>, user: string, password: string)
    ensures Decode(BasicAuthorization(utf8, user, password)[6..]) == Some(utf8(user) + [58 as byte] + utf8(password))
  {
    var r := BasicAuthorization(utf8, user, password);
    assert r[6..] == Encode(utf8(user) + [58 as byte] + utf8(password));
    EncodeDecode(utf8(user) + [58 as byte] + utf8(password));
  }

  /**
   * `http_auth_digest_headers(**authres)`: the realm, nonce and opaque of the
   * challenge, looked up in that order, go to the digest builder with the
   * user, password and location.
   */
  function DigestAuthorization(env: Env, user: string, password: string, location: string,
                               authres: Dict<string>): (r: Result<string>)
    ensures r.Ok? <==> Get(authres, "realm").Some? && Get(authres, "nonce").Some? && Get(authres, "opaque").Some?
    ensures Get(authres, "realm").None? ==> r == Err(MissingKey("realm"))
    ensures r.Ok? ==> r.value == env.digest(DigestInput(user, password, location,
      Get(authres, "realm").value, Get(authres, "nonce").value, Get(authres, "opaque").value))
  {
    match (Get(authres, "realm"), Get(authres, "nonce"), Get(authres, "opaque"))
    case (None, _, _) => Err(MissingKey("realm"))
    case (_, None, _) => Err(MissingKey("nonce"))
    case (_, _, None) => Err(MissingKey("opaque"))
    case (Some(realm), Some(nonce), Some(opaqueValue)) =>
      Ok(env.digest(DigestInput(user, password, location, realm, nonce, opaqueValue)))
  }

  /** The Authorization field sent after the request, when there is a value for it. */
  function AuthorizationLines(authorization: Option<Result<string>>): seq<Line> {
    if authorization.Some? && authorization.value.Ok? then [Field("Authorization", authorization.value.value)] else []
  }

  // ---------------------------------------------------------------- redirects

  /** The port a Location without one stands for. */
  function DefaultPort(secure: bool): (r: nat)
    ensures r == 443 || r == 80
    ensures r == 443 <==> secure
  {
    if secure then 443 else 80
  }

  /** `url.port` is truthy: the URL names a port, and not port 0. */
  predicate HasPort(url: Url) {
    url.port.Some? && url.port.value != 0
  }

  /**
   * The address handshake.py computes for a Location, as written: a URL
   * without a port reads `self.secure`, which a ClientHandshake does not
   * have; a URL with one pairs the net location, port included, with it.
   */
  function RedirectAddressAsWritten(url: Url): (r: Result<(string, nat)>)
    ensures r.Ok? <==> HasPort(url)
    ensures !HasPort(url) ==> r == Err(AttributeMissing("secure"))
  {
    if HasPort(url) then Ok((url.netloc, url.port.value)) else Err(AttributeMissing("secure"))
  }

  /** The address a redirect evidently means: the host, on the URL's port or the scheme's default. */
  function RedirectAddress(url: Url, secure: bool): (r: (string, nat))
    ensures r.0 == url.hostname
    ensures r.1 == if HasPort(url) then url.port.value else DefaultPort(secure)
  {
    (url.hostname, if HasPort(url) then url.port.value else DefaultPort(secure))
  }

  /** A Location without a port fails as written, and goes to the default port when corrected. */
  lemma PortlessRedirect()
    ensures var url := Url("example.com", "example.com", None, "/chat");
      && RedirectAddressAsWritten(url).Err?
      && RedirectAddress(url, false) == ("example.com", 80)
  {
  }

  /** A Location with a port gives, as written, a host name with the port still in it. */
  lemma PortedRedirect()
    ensures var url := Url("example.com:8080", "example.com", Some(8080), "/chat");
      && RedirectAddressAsWritten(url) == Ok(("example.com:8080", 8080))
      && RedirectAddress(url, false) == ("example.com", 8080)
  {
  }

  /**
   * The reconnect of `handle_redirect` as written: an address other than the
   * connected peer's closes the socket and then connects that same closed
   * socket, which Python 2 refuses with EBADF.
   */
  function ReconnectAsWritten(addr: (string, nat), connected: (string, nat)): (r: Result<()>)
    ensures r.Ok? <==> addr == connected
    ensures r.Err? ==> r.error == BadFileDescriptor
  {
    if addr == connected then Ok(()) else Err(BadFileDescriptor)
  }

  /**
   * `getpeername()` gives the numeric address, so a Location naming its host
   * by name fails as written even with a port; corrected, the client moves to
   * that host and port.
   */
  lemma NamedRedirectFails()
    ensures var url := Url("example.com:8080", "example.com", Some(8080), "/chat");
      && RedirectAddressAsWritten(url).Ok?
      && ReconnectAsWritten(RedirectAddressAsWritten(url).value, ("93.184.216.34", 8080)) == Err(BadFileDescriptor)
      && RedirectAddress(url, false) == ("example.com", 8080)
  {
  }

  // ---------------------------------------------------------------- the handshake object

  /** One round trip: the random bytes the request's key is made of, and the server's answer. */
  datatype Round = Round(nonce: seq<byte>, status: string, fields: Fields)

  /** `ClientHandshake`: the websocket it works on, the redirects followed, the last key and what was sent. */
  class ClientHandshake {
    const wsock: Endpoint
    var redirects: nat
    var key: string
    /** The address the socket is connected to. */
    var peer: (string, nat)
    /** Every request sent, as its lines, in order. */
    var sent: seq<seq<Line>>
    /** Every redirect followed: the address moved to and the new location, in order. */
    ghost var moves: seq<((string, nat), string)>
    /** The 101 answer that was accepted, with the extensions the client supported then. */
    ghost var accepted: Option<(Dict<string>, seq<Extension>)>

    constructor(wsock: Endpoint, peer: (string, nat))
      ensures this.wsock == wsock && this.peer == peer
      ensures redirects == 0 && key == "" && sent == [] && accepted.None? && moves == []
    {
      this.wsock := wsock;
      this.peer := peer;
      redirects := 0;
      key := "";
      sent := [];
      accepted := None;
      moves := [];
    }

    /**
     * `request_headers`: an empty location closes the socket; otherwise a
     * fresh key is made from the random bytes and the request's lines carry it.
     */
    method RequestHeaders(nonce: seq<byte>) returns (r: Result<seq<Line>>)
      modifies this, wsock
      ensures wsock.location == "" ==> r == Err(HandshakeError(EmptyLocation)) && wsock.closed && key == old(key)
      ensures wsock.location != "" ==> (key == ClientKey(nonce) && wsock.closed == old(wsock.closed)
        && r == Ok(RequestLines(wsock.location, peer, key, wsock.origin, wsock.protocols, wsock.extensions)))
      ensures wsock.Settings() == old(wsock.Settings()) && wsock.location == old(wsock.location)
      ensures wsock.extensions == old(wsock.extensions) && wsock.hooks == old(wsock.hooks)
      ensures wsock.protocol == old(wsock.protocol)
      ensures redirects == old(redirects) && peer == old(peer) && sent == old(sent) && accepted == old(accepted)
      ensures moves == old(moves)
    {
      if |wsock.location| == 0 {
        wsock.closed := true;
        return Err(HandshakeError(EmptyLocation));
      }
      key := ClientKey(nonce);
      r := Ok(RequestLines(wsock.location, peer, key, wsock.origin, wsock.protocols, wsock.extensions));
    }

    /** `handle_handshake` with the key of the last request; an answer it accepts is remembered. */
    method HandleHandshake(headers: Dict<string>, sha1: Sha1) returns (r: Result<()>)
      modifies this, wsock
      ensures r.Ok? <==> AnswerAccepted(headers, key, sha1, old(wsock.extensions), wsock.protocols)
      ensures r.Ok? ==> accepted == Some((headers, old(wsock.extensions)))
      ensures wsock.Settings() == old(wsock.Settings()) && wsock.location == old(wsock.location)
      ensures redirects == old(redirects) && peer == old(peer) && sent == old(sent) && key == old(key)
      ensures moves == old(moves)
    {
      if AnswerAccepted(headers, key, sha1, wsock.extensions, wsock.protocols) {
        accepted := Some((headers, wsock.extensions));
      }
      r := CheckHandshake(wsock, headers, key, sha1);
    }

    /** The answer remembered as accepted passed every check of `handle_handshake` under the current key. */
    ghost predicate Done(sha1: Sha1)
      reads this, wsock
    {
      accepted.Some? && AnswerAccepted(accepted.value.0, key, sha1, accepted.value.1, wsock.protocols)
    }

    /** The last request sent carries the current key. */
    predicate KeySent()
      reads this
    {
      |sent| > 0 && FieldOf(sent[|sent| - 1], "Sec-WebSocket-Key") == Some(key)
    }

    /**
     * `send_headers` of the request made from the random bytes, with the
     * Authorization field after it when there is one. An empty location fails
     * before the Authorization value is looked at.
     */
    method Send(nonce: seq<byte>, authorization: Option<Result<string>>) returns (r: Result<()>)
      modifies this, wsock
      ensures old(wsock.location) == "" ==> r == Err(HandshakeError(EmptyLocation)) && wsock.closed
      ensures (old(wsock.location) != "" && authorization.Some? && authorization.value.Err? ==>
        r == Err(authorization.value.error) && wsock.closed == old(wsock.closed))
      ensures r.Ok? <==> old(wsock.location) != "" && (authorization.None? || authorization.value.Ok?)
      ensures r.Ok? ==> (key == ClientKey(nonce) && KeySent()
        && sent == old(sent) + [RequestLines(wsock.location, peer, key, wsock.origin, wsock.protocols, wsock.extensions)
                                + AuthorizationLines(authorization)])
      ensures r.Ok? ==> wsock.closed == old(wsock.closed)
      ensures wsock.Settings() == old(wsock.Settings()) && wsock.location == old(wsock.location)
      ensures wsock.extensions == old(wsock.extensions) && wsock.hooks == old(wsock.hooks)
      ensures wsock.protocol == old(wsock.protocol)
      ensures redirects == old(redirects) && peer == old(peer) && moves == old(moves)
    {
      var request := RequestHeaders(nonce);
      if request.Err? {
        return Err(request.error);
      }
      if authorization.Some? && authorization.value.Err? {
        return Err(authorization.value.error);
      }
      RequestCarriesKey(wsock.location, peer, key, wsock.origin, wsock.protocols, wsock.extensions);
      FieldPrefix(request.value, AuthorizationLines(authorization), "Sec-WebSocket-Key");
      sent := sent + [request.value + AuthorizationLines(authorization)];
      r := Ok(());
    }

    /**
     * `perform`: the request is made from the first round's random bytes and
     * sent, and the round's answer is handled. Without a round left there is
     * no answer to wait for.
     */
    method Perform(rounds: seq<Round>, env: Env) returns (r: Result<()>)
      modifies this, wsock
      ensures |rounds| == 0 ==> r == Err(HandshakeError(NoResponse))
      ensures |rounds| > 0 && old(wsock.location) == "" ==> r == Err(HandshakeError(EmptyLocation)) && wsock.closed
      ensures r.Ok? ==> Done(env.sha1) && KeySent()
      ensures wsock.Settings() == old(wsock.Settings())
      ensures old(redirects) <= redirects && old(moves) <= moves
      ensures r.Ok? && old(redirects) <= MAX_REDIRECTS ==> redirects <= MAX_REDIRECTS
      decreases |rounds|, 4
    {
      if |rounds| == 0 {
        return Err(HandshakeError(NoResponse));
      }
      r := Send(rounds[0].nonce, None);
      if r.Ok? {
        r := HandleRound(rounds[0], rounds[1..], env);
      }
    }

    /**
     * `self.handle_response(*self.receive_response())`: an answer whose first
     * line is not an HTTP/1.1 status closes the socket; otherwise its fields
     * are merged and the status is handled.
     */
    method HandleRound(round: Round, rest: seq<Round>, env: Env) returns (r: Result<()>)
      modifies this, wsock
      ensures StatusOf(round.status).None? ==> r == Err(HandshakeError(NotHttpResponse)) && wsock.closed
      ensures (StatusOf(round.status).Some? && !Handled(StatusOf(round.status).value) ==>
        r == Err(HandshakeError(InvalidStatus(StatusOf(round.status).value))) && wsock.closed)
      ensures r.Ok? ==> StatusOf(round.status).Some?
      ensures r.Ok? ==> Done(env.sha1) && (old(KeySent()) || StatusOf(round.status).value != 101 ==> KeySent())
      ensures wsock.Settings() == old(wsock.Settings())
      ensures old(redirects) <= redirects && old(moves) <= moves
      ensures r.Ok? && old(redirects) <= MAX_REDIRECTS ==> redirects <= MAX_REDIRECTS
      decreases |rest| + 1, 3
    {
      var status := StatusOf(round.status);
      if status.None? {
        wsock.closed := true;
        return Err(HandshakeError(NotHttpResponse));
      }
      var headers := ReceiveHeaders(round.fields);
      r := HandleResponse(status.value, headers, rest, env);
    }

    /**
     * `handle_response`: 101 is checked, 401 answers the challenge, a
     * redirect status follows the Location, and any other status closes the
     * socket.
     */
    method HandleResponse(status: nat, headers: Dict<string>, rest: seq<Round>, env: Env) returns (r: Result<()>)
      modifies this, wsock
      ensures !Handled(status) ==> r == Err(HandshakeError(InvalidStatus(status))) && wsock.closed
      ensures r.Ok? ==> Done(env.sha1) && (old(KeySent()) || status != 101 ==> KeySent())
      ensures status == 101 ==> (r.Ok? <==> AnswerAccepted(headers, key, env.sha1, old(wsock.extensions), wsock.protocols))
      ensures wsock.Settings() == old(wsock.Settings())
      ensures old(redirects) <= redirects && old(moves) <= moves
      ensures r.Ok? && old(redirects) <= MAX_REDIRECTS ==> redirects <= MAX_REDIRECTS
      decreases |rest| + 1, 2
    {
      if status == 101 {
        r := HandleHandshake(headers, env.sha1);
      } else if status == 401 {
        r := HandleAuth(headers, rest, env);
      } else if IsRedirect(status) {
        r := HandleRedirect(headers, rest, env);
      } else {
        wsock.closed := true;
        r := Err(HandshakeError(InvalidStatus(status)));
      }
    }

    /**
     * `handle_auth`: the challenge's mode picks Basic or Digest; without a
     * user and password, or for another mode, the socket is closed. The new
     * request, with a new key, is sent with the Authorization field after
     * it, and the next answer is handled.
     */
    method HandleAuth(headers: Dict<string>, rest: seq<Round>, env: Env) returns (r: Result<()>)
      modifies this, wsock
      ensures Get(headers, "WWW-Authenticate").None? ==> r == Err(MissingKey("WWW-Authenticate")) && wsock.closed == old(wsock.closed)
      ensures (Get(headers, "WWW-Authenticate").Some? && wsock.auth.None? ==>
        r == Err(HandshakeError(MissingCredentials)) && wsock.closed)
      ensures (Get(headers, "WWW-Authenticate").Some? && wsock.auth.Some? &&
        !KnownMode(AuthMode(Get(headers, "WWW-Authenticate").value))) ==>
        (r == Err(HandshakeError(UnsupportedAuthMode(AuthMode(Get(headers, "WWW-Authenticate").value)))) && wsock.closed)
      ensures r.Ok? ==> Done(env.sha1) && KeySent()
      ensures wsock.Settings() == old(wsock.Settings())
      ensures old(redirects) <= redirects && old(moves) <= moves
      ensures r.Ok? && old(redirects) <= MAX_REDIRECTS ==> redirects <= MAX_REDIRECTS
      decreases |rest| + 1, 1
    {
      var challenge := Get(headers, "WWW-Authenticate");
      if challenge.None? {
        return Err(MissingKey("WWW-Authenticate"));
      }
      var authres := env.challenge(challenge.value);
      var mode := AuthMode(challenge.value);
      if wsock.auth.None? {
        wsock.closed := true;
        return Err(HandshakeError(MissingCredentials));
      }
      if !KnownMode(mode) {
        wsock.closed := true;
        return Err(HandshakeError(UnsupportedAuthMode(mode)));
      }
      var (user, password) := wsock.auth.value;
      var authorization := if mode == "Basic" then Ok(BasicAuthorization(env.utf8, user, password))
                           else DigestAuthorization(env, user, password, wsock.location, authres);
      r := Retry(authorization, rest, env);
    }

    /** The request is sent again with the Authorization field, and the next answer is handled. */
    method Retry(authorization: Result<string>, rest: seq<Round>, env: Env) returns (r: Result<()>)
      modifies this, wsock
      ensures |rest| == 0 ==> r == Err(HandshakeError(NoResponse))
      ensures r.Ok? ==> Done(env.sha1) && KeySent()
      ensures wsock.Settings() == old(wsock.Settings())
      ensures old(redirects) <= redirects && old(moves) <= moves
      ensures r.Ok? && old(redirects) <= MAX_REDIRECTS ==> redirects <= MAX_REDIRECTS
      decreases |rest| + 1, 0
    {
      if |rest| == 0 {
        return Err(HandshakeError(NoResponse));
      }
      r := Send(rest[0].nonce, Some(authorization));
      if r.Ok? {
        r := HandleRound(rest[0], rest[1..], env);
      }
    }

    /**
     * `handle_redirect`: one more redirect is counted, and past the maximum
     * the socket is closed; otherwise the socket goes to the Location's
     * address, the location becomes its path, and the handshake starts over.
     */
    method HandleRedirect(headers: Dict<string>, rest: seq<Round>, env: Env) returns (r: Result<()>)
      modifies this, wsock
      ensures old(redirects) + 1 > MAX_REDIRECTS ==> r == Err(HandshakeError(TooManyRedirects)) && wsock.closed
      ensures (old(redirects) + 1 <= MAX_REDIRECTS && Get(headers, "Location").None? ==>
        r == Err(MissingKey("Location")) && wsock.closed == old(wsock.closed))
      ensures r.Ok? ==> Done(env.sha1) && KeySent()
      ensures wsock.Settings() == old(wsock.Settings())
      ensures old(redirects) < redirects && old(moves) <= moves
      ensures old(redirects) + 1 <= MAX_REDIRECTS && Get(headers, "Location").Some? ==>
        var url := env.urlparse(Strip(Get(headers, "Location").value));
        |moves| > |old(moves)| && moves[|old(moves)|] == (RedirectAddress(url, wsock.secure), url.path)
      ensures r.Ok? && old(redirects) <= MAX_REDIRECTS ==> redirects <= MAX_REDIRECTS
      decreases |rest| + 1, 1
    {
      redirects := redirects + 1;
      if redirects > MAX_REDIRECTS {
        wsock.closed := true;
        return Err(HandshakeError(TooManyRedirects));
      }
      var location := Get(headers, "Location");
      if location.None? {
        return Err(MissingKey("Location"));
      }
      var url := env.urlparse(Strip(location.value));
      peer := RedirectAddress(url, wsock.secure);
      wsock.location := url.path;
      moves := moves + [(peer, wsock.location)];
      r := Perform(rest, env);
    }
  }
}
