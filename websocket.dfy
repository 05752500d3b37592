/**
 * The handshakes of websocket.py, older than those of handshake.py: the
 * `websocket` object checks a client's request on the raw fields and writes
 * its answer as one text; as a client it writes its request as one text and
 * checks the answer, with extension names compared as sets; and it refuses
 * to turn on TLS once a handshake has started.
 *
 * `header(name)` of websocket.py, all values of a name joined by ", ", is
 * `Joined`; `split_stripped(value)` is `SplitStripped(value, ',', -1)`.
 */
module WebSockets {
  import opened Errors
  import opened Octets
  import opened Strings
  import opened Dicts
  import opened Extensions
  import opened Handshakes
  import opened ClientHandshakes

  const CRLF: string := "\r\n"

  /** "name: value\r\n" for each field, in order. */
  function HeaderText(fields: Fields): (r: string)
    ensures |fields| > 0 ==> |r| >= 2 && r[|r| - 2..] == CRLF
  {
    if |fields| == 0 then ""
    else
      var last := fields[|fields| - 1];
      HeaderText(fields[..|fields| - 1]) + last.0 + ": " + last.1 + CRLF
  }

  /** A text ends with the empty line `receive_headers` waits for. */
  predicate Terminated(text: string) {
    |text| >= 4 && text[|text| - 4..] == CRLF + CRLF
  }

  /** A first line, the header lines and the empty line. */
  function Message(first: string, fields: Fields): (r: string)
    ensures Terminated(r)
    ensures IsPrefix(first + CRLF, r)
  {
    var r := first + CRLF + HeaderText(fields) + CRLF;
    assert r[..|first + CRLF|] == first + CRLF;
    r
  }

  // ---------------------------------------------------------------- server: checking the request

  /**
   * The checks of `server_handshake`, failing at the first that does not
   * hold: a missing header (the first missing, in the order of handshake.py),
   * a version other than "13", no "websocket" in Upgrade, no "upgrade" in
   * Connection, then the origin policy.
   */
  function ServerCheck(raw: Fields, trusted: seq<string>): (r: Result<()>)
    ensures r.Err? ==> r.error.HandshakeError?
    ensures r.Ok? ==> forall n :: n in REQUEST_REQUIRED ==> n in Keys(raw)
    ensures r.Ok? ==> Joined(raw, "Sec-WebSocket-Version") == WS_VERSION
    ensures r.Ok? ==> HasKeyword(Joined(raw, "Upgrade"), "websocket") && HasKeyword(Joined(raw, "Connection"), "upgrade")
  {
    match FirstUnknown(REQUEST_REQUIRED, Keys(raw))
    case Some(n) => Err(HandshakeError(MissingHeader(n)))
    case None =>
      var version := Joined(raw, "Sec-WebSocket-Version");
      if version != WS_VERSION then Err(HandshakeError(UnsupportedVersion(version)))
      else if !HasKeyword(Joined(raw, "Upgrade"), "websocket") then Err(HandshakeError(UpgradeWithoutWebsocket))
      else if !HasKeyword(Joined(raw, "Connection"), "upgrade") then Err(HandshakeError(ConnectionWithoutUpgrade))
      else
        var origin := if "Origin" in Keys(raw) then Some(Joined(raw, "Origin")) else None;
        match CheckOrigin(origin, "User-Agent" in Keys(raw), trusted)
        case Ok(_) => Ok(())
        case Err(e) => Err(e)
  }

  /** A verdict without its value. */
  function Verdict<T>(r: Result<T>): Result<()> {
    match r
    case Ok(_) => Ok(())
    case Err(e) => Err(e)
  }

  /** Two lists of known names leave the same name first unknown when they know the same of the names asked. */
  lemma {:induction false} FirstUnknownAgree(names: seq<string>, a: seq<string>, b: seq<string>)
    requires forall n :: n in names ==> (n in a <==> n in b)
    ensures FirstUnknown(names, a) == FirstUnknown(names, b)
  {
    if |names| > 0 {
      assert forall n :: n in names[1..] ==> n in names;
      FirstUnknownAgree(names[1..], a, b);
    }
  }

  /**
   * The checks of websocket.py on the raw fields and those of handshake.py
   * on the merged dict give the same verdict, and the same error.
   */
  lemma ServerChecksAgree(raw: Fields, trusted: seq<string>)
    ensures ServerCheck(raw, trusted) == Verdict(CheckRequest(MergedHeaders(raw), trusted))
    ensures ServerCheck(raw, trusted).Ok? <==> RequestAcceptable(MergedHeaders(raw), trusted)
  {
    var headers := MergedHeaders(raw);
    forall n | n in REQUEST_REQUIRED
      ensures n in Keys(headers) <==> n in Keys(raw)
    {
      MergedGet(raw, n);
    }
    FirstUnknownAgree(REQUEST_REQUIRED, Keys(headers), Keys(raw));
    if FirstUnknown(REQUEST_REQUIRED, Keys(raw)).None? {
      RequiredPresent(Keys(raw));
      MergedGet(raw, "Sec-WebSocket-Version");
      MergedGet(raw, "Upgrade");
      MergedGet(raw, "Connection");
      MergedGet(raw, "Origin");
      MergedGet(raw, "User-Agent");
    }
  }

  // ---------------------------------------------------------------- server: negotiation and the answer

  /** The extension names a message lists in its Sec-WebSocket-Extensions fields. */
  function ListedExtensions(raw: Fields): seq<string> {
    SplitStripped(Joined(raw, "Sec-WebSocket-Extensions"), ',', -1)
  }

  /** The protocols the server reads from a request as written: the Sec-WebSocket-Extensions list. */
  function ProtocolOfferAsWritten(raw: Fields): seq<string> {
    ListedExtensions(raw)
  }

  /** The protocols a request offers: its Sec-WebSocket-Protocol list. */
  function ProtocolOffer(raw: Fields): seq<string> {
    SplitStripped(Joined(raw, "Sec-WebSocket-Protocol"), ',', -1)
  }

  /**
   * A request offering one supported protocol, and no extensions: as
   * written the server reads its offer from the (absent) extensions and
   * answers "null"; read from Sec-WebSocket-Protocol, the offer is taken.
   */
  lemma ProtocolReadFromExtensions(p: string, supported: seq<string>)
    requires p != "" && Stripped(p) && ',' !in p && p in supported
    ensures FirstProtocol(ProtocolOfferAsWritten([("Sec-WebSocket-Protocol", p)]), supported) == None
    ensures FirstProtocol(ProtocolOffer([("Sec-WebSocket-Protocol", p)]), supported) == Some(p)
  {
    var raw := [("Sec-WebSocket-Protocol", p)];
    assert raw[..0] == [];
    assert ValuesOf(raw, "Sec-WebSocket-Extensions") == [];
    assert ValuesOf(raw, "Sec-WebSocket-Protocol") == [p];
    assert Split(p, ',', -1) == [p];
    StripIdempotent(p);
    assert ProtocolOffer(raw) == [p];
  }

  /** The first offered protocol the server supports. */
  function FirstProtocol(offered: seq<string>, supported: seq<string>): (r: Option<string>)
    ensures FirstSupported(offered, supported, r)
  {
    if |offered| == 0 then None
    else if offered[0] in supported then
      assert 0 < |offered| && offered[0] == offered[0];
      Some(offered[0])
    else
      var r := FirstProtocol(offered[1..], supported);
      FirstSupportedCons(offered, supported, r);
      r
  }

  /** A protocol first supported in the tail of an offer whose head is unsupported is first in the offer. */
  lemma FirstSupportedCons(offered: seq<string>, supported: seq<string>, p: Option<string>)
    requires |offered| > 0 && offered[0] !in supported
    requires FirstSupported(offered[1..], supported, p)
    ensures FirstSupported(offered, supported, p)
  {
    if p.Some? {
      var i :| 0 <= i < |offered[1..]| && offered[1..][i] == p.value && p.value in supported
        && forall j :: 0 <= j < i ==> offered[1..][j] !in supported;
      assert offered[i + 1] == p.value;
      forall j | 0 <= j < i + 1
        ensures offered[j] !in supported
      {
        if j > 0 {
          assert offered[j] == offered[1..][j - 1];
        }
      }
    } else {
      assert forall q :: q in offered ==> q == offered[0] || q in offered[1..];
    }
  }

  /** The protocol the answer names: "null" when none was chosen. */
  function ProtocolName(p: Option<string>): string {
    if p.Some? then p.value else "null"
  }

  /** `[e for e in offered if e in supported]`. */
  function Supported(offered: seq<string>, supported: seq<string>): (r: seq<string>)
    ensures forall e :: e in r <==> e in offered && e in supported
    ensures |r| <= |offered|
  {
    if |offered| == 0 then []
    else
      var rest := Supported(offered[1..], supported);
      assert forall e :: e in offered <==> e == offered[0] || e in offered[1..];
      (if offered[0] in supported then [offered[0]] else []) + rest
  }

  /** The fields of the answer `server_handshake` writes. */
  function AnswerFields(raw: Fields, location: string, accept: string, protocol: string,
                        extensions: seq<string>): Fields {
    [("Upgrade", "websocket"), ("Connection", "Upgrade"), ("WebSocket-Origin", Joined(raw, "Origin")),
     ("WebSocket-Location", "ws://" + Joined(raw, "Host") + location), ("Sec-WebSocket-Accept", accept),
     ("Sec-WebSocket-Protocol", protocol), ("Sec-WebSocket-Extensions", Join(extensions, ", "))]
  }

  /**
   * The answer to a request for a location: the accept token of its key,
   * the first offered protocol the server supports, and the offered
   * extensions the server supports, in the client's order.
   */
  function Shake(raw: Fields, location: string, sha1: Sha1, protocols: seq<string>,
                 extensions: seq<string>): Fields {
    AnswerFields(raw, location, AcceptToken(sha1, Joined(raw, "Sec-WebSocket-Key")),
                 ProtocolName(FirstProtocol(ProtocolOffer(raw), protocols)),
                 Supported(ListedExtensions(raw), extensions))
  }

  /** The text of an answer: the 101 status line, the fields and the empty line. */
  function AnswerText(fields: Fields): (r: string)
    ensures Terminated(r) && StatusOf(r) == Some(101)
  {
    var rest := CRLF + HeaderText(fields) + CRLF;
    var r := Message(SWITCHING, fields);
    assert r == SWITCHING + rest;
    SwitchingStatus(rest);
    r
  }

  /** Whatever follows the server's status line, the client reads the status 101. */
  lemma SwitchingStatus(rest: string)
    ensures StatusOf(SWITCHING + rest) == Some(101)
  {
    SwitchingIs101();
    var line := SWITCHING + rest;
    assert line[..9] == SWITCHING[..9] && line[9..12] == SWITCHING[9..12];
  }

  // ---------------------------------------------------------------- client: the request and the answer

  /** The fields of the request `send_request` writes; Host is always the address first connected to. */
  function RequestFields(address: (string, nat), key: string, origin: string, protocols: seq<string>,
                         extensions: seq<string>, auth: string): Fields {
    [("Host", HostValue(address)), ("Upgrade", "websocket"), ("Connection", "keep-alive, Upgrade"),
     ("Sec-WebSocket-Key", key), ("Sec-WebSocket-Version", WS_VERSION)]
    + (if origin != "" then [("Origin", origin)] else [])
    + [("Pragma", "no-cache"), ("Cache-Control", "no-cache")]
    + (if |protocols| > 0 then [("Sec-WebSocket-Protocol", Join(protocols, ", "))] else [])
    + (if |extensions| > 0 then [("Sec-WebSocket-Extensions", Join(extensions, ", "))] else [])
    + (if auth != "" then [("Authorization", auth)] else [])
  }

  /** The text of a request: the GET line for the location, the fields and the empty line. */
  function RequestText(location: string, fields: Fields): (r: string)
    ensures Terminated(r)
    ensures IsPrefix("GET " + location + " HTTP/1.1" + CRLF, r)
  {
    Message("GET " + location + " HTTP/1.1", fields)
  }

  /** The names a 101 answer must carry, in the order they are checked. */
  const RESPONSE_REQUIRED: seq<string> := ["Upgrade", "Connection", "Sec-WebSocket-Accept"]

  lemma ResponseRequiredPresent(names: seq<string>)
    ensures FirstUnknown(RESPONSE_REQUIRED, names).None? <==>
      "Upgrade" in names && "Connection" in names && "Sec-WebSocket-Accept" in names
  {
    assert RESPONSE_REQUIRED[0] == "Upgrade" && RESPONSE_REQUIRED[1] == "Connection";
    assert RESPONSE_REQUIRED[2] == "Sec-WebSocket-Accept";
  }

  /** The protocol an answer names is acceptable: none, "null", or one the client offered. */
  predicate ProtocolAnswered(protocol: string, protocols: seq<string>) {
    protocol == "" || protocol == "null" || protocol in protocols
  }

  /**
   * What the client requires of a 101 answer: the three fields, the
   * keywords, the accept token of its key, the same set of extension names
   * as its own, and an acceptable protocol.
   */
  predicate ResponseAcceptable(raw: Fields, key: string, sha1: Sha1, extensions: seq<string>, protocols: seq<string>) {
    && "Upgrade" in Keys(raw) && "Connection" in Keys(raw) && "Sec-WebSocket-Accept" in Keys(raw)
    && HasKeyword(Joined(raw, "Upgrade"), "websocket")
    && HasKeyword(Joined(raw, "Connection"), "upgrade")
    && AcceptMatches(sha1, key, Joined(raw, "Sec-WebSocket-Accept"))
    && (forall e :: e in ListedExtensions(raw) ==> e in extensions)
    && (forall e :: e in extensions ==> e in ListedExtensions(raw))
    && ProtocolAnswered(Joined(raw, "Sec-WebSocket-Protocol"), protocols)
  }

  /**
   * The checks `receive_response` makes of a 101 answer, failing at the
   * first that does not hold; on success the protocol to take over, if the
   * answer names one.
   */
  function ResponseCheck(raw: Fields, key: string, sha1: Sha1, extensions: seq<string>,
                         protocols: seq<string>): (r: Result<Option<string>>)
    ensures r.Ok? <==> ResponseAcceptable(raw, key, sha1, extensions, protocols)
    ensures r.Ok? ==> r.value == if Joined(raw, "Sec-WebSocket-Protocol") == "" then None
                                 else Some(Joined(raw, "Sec-WebSocket-Protocol"))
    ensures FirstUnknown(RESPONSE_REQUIRED, Keys(raw)).Some? ==>
      r == Err(HandshakeError(MissingHeader(FirstUnknown(RESPONSE_REQUIRED, Keys(raw)).value)))
    ensures r.Err? ==> r.error.HandshakeError?
  {
    ResponseRequiredPresent(Keys(raw));
    match FirstUnknown(RESPONSE_REQUIRED, Keys(raw))
    case Some(n) => Err(HandshakeError(MissingHeader(n)))
    case None =>
      var accept := Joined(raw, "Sec-WebSocket-Accept");
      if !HasKeyword(Joined(raw, "Upgrade"), "websocket") then Err(HandshakeError(UpgradeWithoutWebsocket))
      else if !HasKeyword(Joined(raw, "Connection"), "upgrade") then Err(HandshakeError(ConnectionWithoutUpgrade))
      else if !AcceptMatches(sha1, key, accept) then Err(HandshakeError(InvalidAccept(Strip(accept))))
      else
        var listed := ListedExtensions(raw);
        match FirstUnknown(listed, extensions)
        case Some(e) => Err(HandshakeError(UnsupportedExtension(e)))
        case None =>
          match FirstUnknown(extensions, listed)
          case Some(e) => Err(HandshakeError(ClientExtensionRejected(e)))
          case None =>
            var protocol := Joined(raw, "Sec-WebSocket-Protocol");
            if protocol == "" then Ok(None)
            else if protocol != "null" && protocol !in protocols then Err(HandshakeError(UnsupportedProtocol(protocol)))
            else Ok(Some(protocol))
  }

  /**
   * The address websocket.py computes for a Location, as written: a URL
   * without a port is given one by assigning to `url.port`, which the
   * parsed URL does not allow; a URL with one pairs the net location, port
   * included, with it.
   */
  function RedirectTargetAsWritten(url: Url): (r: Result<(string, nat)>)
    ensures r.Ok? <==> HasPort(url)
    ensures !HasPort(url) ==> r == Err(ReadOnlyAttribute("port"))
  {
    if HasPort(url) then Ok((url.netloc, url.port.value)) else Err(ReadOnlyAttribute("port"))
  }

  /** As written, every Location without a port stops the client, which the corrected address does not. */
  lemma PortlessTargetFails(url: Url, secure: bool)
    requires url.port.None?
    ensures RedirectTargetAsWritten(url) == Err(ReadOnlyAttribute("port"))
    ensures RedirectAddress(url, secure) == (url.hostname, DefaultPort(secure))
  {
  }

  /**
   * The answer `server_handshake` writes once the checks pass: the protocol
   * is the first offered one the server supports, found by a search of the
   * offer.
   */
  method Respond(raw: Fields, location: string, sha1: Sha1, protocols: seq<string>,
                 extensions: seq<string>) returns (text: string)
    ensures text == AnswerText(Shake(raw, location, sha1, protocols, extensions))
  {
    var offered := ProtocolOffer(raw);
    var chosen := SelectProtocol(offered, protocols);
    FirstSupportedUnique(offered, protocols, chosen, FirstProtocol(offered, protocols));
    var accept := AcceptToken(sha1, Joined(raw, "Sec-WebSocket-Key"));
    var fields := AnswerFields(raw, location, accept, ProtocolName(chosen),
                               Supported(ListedExtensions(raw), extensions));
    text := AnswerText(fields);
  }

  // ---------------------------------------------------------------- the websocket object

  /** The last of the texts sent is the request for the location with the key, under the settings. */
  predicate RequestWritten(sent: seq<string>, settings: (seq<string>, seq<string>, string, seq<string>),
                      address: (string, nat), auth: string, location: string, key: string)
  {
    var (protocols, extensions, origin, _) := settings;
    |sent| > 0 && sent[|sent| - 1] == RequestText(location, RequestFields(address, key, origin, protocols, extensions, auth))
  }

  /** An accepted answer (fields, key, location) passed every check and answered the last request sent. */
  ghost predicate Answered(accepted: Option<(Fields, string, string)>, sent: seq<string>,
                           settings: (seq<string>, seq<string>, string, seq<string>),
                           sha1: Sha1, address: (string, nat), auth: string)
  {
    && accepted.Some?
    && ResponseAcceptable(accepted.value.0, accepted.value.1, sha1, settings.1, settings.0)
    && RequestWritten(sent, settings, address, auth, accepted.value.2, accepted.value.1)
  }

  /** `websocket`: the settings its handshakes read, and what they change. */
  class WebSocket {
    var protocols: seq<string>
    var extensions: seq<string>
    /** The Origin a client sends; "" for none. */
    var origin: string
    var trustedOrigins: seq<string>
    var secure: bool
    var handshakeStarted: bool
    var protocol: Option<string>
    /** The address the socket is connected to. */
    var peer: (string, nat)
    /** Every handshake text written to the socket, in order. */
    var sent: seq<string>
    /** A failed check has closed the socket. */
    var closed: bool
    /** The answer the client accepted, the key it answered and the location requested. */
    ghost var accepted: Option<(Fields, string, string)>

    constructor(protocols: seq<string>, extensions: seq<string>, origin: string,
                trustedOrigins: seq<string>, peer: (string, nat))
      ensures this.protocols == protocols && this.extensions == extensions && this.origin == origin
      ensures this.trustedOrigins == trustedOrigins && this.peer == peer
      ensures !secure && !handshakeStarted && protocol.None? && sent == [] && !closed && accepted.None?
    {
      this.protocols := protocols;
      this.extensions := extensions;
      this.origin := origin;
      this.trustedOrigins := trustedOrigins;
      this.peer := peer;
      secure := false;
      handshakeStarted := false;
      protocol := None;
      sent := [];
      closed := false;
      accepted := None;
    }

    /** The settings no handshake changes. */
    function Settings(): (seq<string>, seq<string>, string, seq<string>)
      reads this
    {
      (protocols, extensions, origin, trustedOrigins)
    }

    /**
     * `server_handshake` once the request text is in: a first line that is
     * not a GET request, or a failed check, closes the socket; otherwise the
     * answer is written and the handshake has started.
     */
    method ServerHandshake(line: string, raw: Fields, sha1: Sha1) returns (r: Result<string>)
      modifies this
      ensures TargetOf(line).None? ==> r == Err(HandshakeError(NotGetRequest))
      ensures (TargetOf(line).Some? && ServerCheck(raw, trustedOrigins).Err? ==>
        r == Err(ServerCheck(raw, trustedOrigins).error))
      ensures r.Ok? <==> TargetOf(line).Some? && ServerCheck(raw, trustedOrigins).Ok?
      ensures r.Ok? ==> r.value == AnswerText(Shake(raw, TargetOf(line).value, sha1, protocols, extensions))
      ensures r.Err? ==> closed && sent == old(sent) && handshakeStarted == old(handshakeStarted)
      ensures r.Ok? ==> sent == old(sent) + [r.value] && handshakeStarted && closed == old(closed)
      ensures Settings() == old(Settings()) && secure == old(secure) && protocol == old(protocol)
      ensures peer == old(peer) && accepted == old(accepted)
    {
      var target := TargetOf(line);
      if target.None? {
        closed := true;
        return Err(HandshakeError(NotGetRequest));
      }
      var check := ServerCheck(raw, trustedOrigins);
      if check.Err? {
        closed := true;
        return Err(check.error);
      }
      var text := Respond(raw, target.value, sha1, protocols, extensions);
      Write(text);
      r := Ok(text);
    }

    /** The answer goes out and the handshake has started. */
    method Write(text: string)
      modifies this
      ensures sent == old(sent) + [text] && handshakeStarted
      ensures Settings() == old(Settings()) && secure == old(secure) && protocol == old(protocol)
      ensures peer == old(peer) && accepted == old(accepted) && closed == old(closed)
    {
      sent := sent + [text];
      handshakeStarted := true;
    }

    /** The last text sent is the request for the location with the key. */
    predicate LastSent(address: (string, nat), auth: string, location: string, key: string)
      reads this
    {
      RequestWritten(sent, Settings(), address, auth, location, key)
    }

    /** The answer remembered as accepted passed every check, and answered the last request sent. */
    ghost predicate Done(sha1: Sha1, address: (string, nat), auth: string)
      reads this
    {
      Answered(accepted, sent, Settings(), sha1, address, auth)
    }

    /**
     * `client_handshake`: the handshake counts as started before anything is
     * sent; then the request goes out and its answer is handled.
     */
    method ClientHandshake(address: (string, nat), location: string, auth: string,
                           rounds: seq<Round>, env: Env) returns (r: Result<()>)
      modifies this
      ensures handshakeStarted
      ensures r.Ok? ==> Done(env.sha1, address, auth)
      ensures Settings() == old(Settings()) && secure == old(secure)
    {
      handshakeStarted := true;
      r := Exchange(address, location, auth, rounds, env);
    }

    /**
     * `receive_response(send_request(location))`: an empty location closes
     * the socket; otherwise a fresh key is made from the round's random
     * bytes, the request is sent and the round's answer handled.
     */
    method Exchange(address: (string, nat), location: string, auth: string,
                    rounds: seq<Round>, env: Env) returns (r: Result<()>)
      modifies this
      ensures |rounds| == 0 ==> r == Err(HandshakeError(NoResponse))
      ensures |rounds| > 0 && location == "" ==> r == Err(HandshakeError(EmptyLocation)) && closed
      ensures r.Ok? ==> Done(env.sha1, address, auth)
      ensures Settings() == old(Settings()) && secure == old(secure) && handshakeStarted == old(handshakeStarted)
      decreases |rounds|, 1
    {
      if |rounds| == 0 {
        return Err(HandshakeError(NoResponse));
      }
      if location == "" {
        closed := true;
        return Err(HandshakeError(EmptyLocation));
      }
      var key := ClientKey(rounds[0].nonce);
      sent := sent + [RequestText(location, RequestFields(address, key, origin, protocols, extensions, auth))];
      r := ReceiveResponse(address, auth, location, key, rounds[0], rounds[1..], env);
    }

    /**
     * `receive_response`: an answer that is not HTTP/1.1 closes the socket;
     * 401 fails at once; a redirect status goes to the Location and sends a
     * new request for its path; a status other than 101 closes the socket;
     * a 101 answer must pass the client's checks, and the protocol it names,
     * if any, is taken over.
     */
    method ReceiveResponse(address: (string, nat), auth: string, location: string, key: string,
                           round: Round, rest: seq<Round>, env: Env) returns (r: Result<()>)
      modifies this
      ensures StatusOf(round.status).None? ==> r == Err(HandshakeError(NotHttpResponse)) && closed
      ensures (StatusOf(round.status) == Some(401) ==>
        r == Err(HandshakeError(AuthenticationRequired(Joined(round.fields, "WWW-Authenticate")))) && closed == old(closed))
      ensures (StatusOf(round.status).Some? && !Handled(StatusOf(round.status).value) ==>
        r == Err(HandshakeError(InvalidStatus(StatusOf(round.status).value))) && closed)
      ensures (StatusOf(round.status) == Some(101) ==>
        (r.Ok? <==> ResponseAcceptable(round.fields, key, env.sha1, extensions, protocols)))
      ensures (StatusOf(round.status) == Some(101) && r.Ok? && Joined(round.fields, "Sec-WebSocket-Protocol") != "" ==>
        protocol == Some(Joined(round.fields, "Sec-WebSocket-Protocol")))
      ensures r.Ok? && old(LastSent(address, auth, location, key)) ==> Done(env.sha1, address, auth)
      ensures Settings() == old(Settings()) && secure == old(secure) && handshakeStarted == old(handshakeStarted)
      decreases |rest| + 1, 0
    {
      var status := StatusOf(round.status);
      if status.None? {
        closed := true;
        return Err(HandshakeError(NotHttpResponse));
      }
      var raw := round.fields;
      if status.value == 401 {
        return Err(HandshakeError(AuthenticationRequired(Joined(raw, "WWW-Authenticate"))));
      }
      if IsRedirect(status.value) {
        r := Redirect(address, auth, raw, rest, env);
        return;
      }
      if status.value != 101 {
        closed := true;
        return Err(HandshakeError(InvalidStatus(status.value)));
      }
      r := HandleAnswer(address, auth, location, key, raw, env.sha1);
    }

    /** A redirect: the socket goes to the Location's address and asks again for its path. */
    method Redirect(address: (string, nat), auth: string, raw: Fields, rest: seq<Round>, env: Env) returns (r: Result<()>)
      modifies this
      ensures |rest| == 0 ==> r == Err(HandshakeError(NoResponse))
      ensures r.Ok? ==> Done(env.sha1, address, auth)
      ensures Settings() == old(Settings()) && secure == old(secure) && handshakeStarted == old(handshakeStarted)
      decreases |rest|, 2
    {
      var url := env.urlparse(Strip(Joined(raw, "Location")));
      peer := RedirectAddress(url, secure);
      r := Exchange(address, url.path, auth, rest, env);
    }

    /**
     * The part of `receive_response` after the status is 101: a failed check
     * closes the socket; otherwise the protocol the answer names, if any, is
     * taken over and the answer is remembered as accepted.
     */
    method HandleAnswer(address: (string, nat), auth: string, location: string, key: string,
                        raw: Fields, sha1: Sha1) returns (r: Result<()>)
      modifies this
      ensures r.Ok? <==> ResponseAcceptable(raw, key, sha1, extensions, protocols)
      ensures r.Err? ==> r == Err(ResponseCheck(raw, key, sha1, extensions, protocols).error) && closed
      ensures r.Ok? && Joined(raw, "Sec-WebSocket-Protocol") != "" ==> protocol == Some(Joined(raw, "Sec-WebSocket-Protocol"))
      ensures r.Ok? && Joined(raw, "Sec-WebSocket-Protocol") == "" ==> protocol == old(protocol)
      ensures r.Ok? ==> accepted == Some((raw, key, location))
      ensures Settings() == old(Settings()) && secure == old(secure) && handshakeStarted == old(handshakeStarted)
      ensures sent == old(sent) && peer == old(peer)
    {
      var check := ResponseCheck(raw, key, sha1, extensions, protocols);
      if check.Err? {
        closed := true;
        return Err(check.error);
      }
      Adopt(check.value, (raw, key, location));
      r := Ok(());
    }

    /** The protocol an accepted answer names, if any, is taken over, and the answer remembered. */
    method Adopt(named: Option<string>, answer: (Fields, string, string))
      modifies this
      ensures protocol == if named.Some? then named else old(protocol)
      ensures accepted == Some(answer)
      ensures Settings() == old(Settings()) && secure == old(secure) && handshakeStarted == old(handshakeStarted)
      ensures sent == old(sent) && peer == old(peer) && closed == old(closed)
    {
      if named.Some? {
        protocol := named;
      }
      accepted := Some(answer);
    }

    /** `enable_ssl`: refused once a handshake has started; otherwise the socket becomes secure. */
    method EnableSsl() returns (r: Result<()>)
      modifies this
      ensures old(handshakeStarted) ==> r == Err(SslAfterHandshake) && secure == old(secure)
      ensures !old(handshakeStarted) ==> r == Ok(()) && secure
      ensures handshakeStarted == old(handshakeStarted) && Settings() == old(Settings())
      ensures sent == old(sent) && protocol == old(protocol) && closed == old(closed)
    {
      if handshakeStarted {
        return Err(SslAfterHandshake);
      }
      secure := true;
      r := Ok(());
    }
  }

  /** A client cannot turn on TLS after its handshake, whatever the handshake's outcome. */
  method SslAfterClientHandshake(ws: WebSocket, address: (string, nat), location: string, auth: string,
                                 rounds: seq<Round>, env: Env) returns (r: Result<()>)
    modifies ws
    ensures r == Err(SslAfterHandshake) && ws.secure == old(ws.secure)
  {
    var _ := ws.ClientHandshake(address, location, auth, rounds, env);
    r := ws.EnableSsl();
  }
}
