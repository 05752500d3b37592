/**
 * The exceptions raised by the modelled code, as values. Each Python `raise`
 * (and each implicit TypeError/IndexError/KeyError the code runs into) is one
 * constructor; operations that can raise return a `Result`.
 */
module Errors {

  datatype Option<+T> = None | Some(value: T)

  /** Why a handshake was refused (the `HandshakeError` message). */
  datatype HandshakeFailure =
    | MissingHeader(name: string)
    | UnsupportedVersion(version: string)
    | UpgradeWithoutWebsocket
    | ConnectionWithoutUpgrade
    | BrowserWithoutOrigin
    | NoOriginWhileTrusting
    | UntrustedOrigin(origin: string)
    | InvalidStatus(status: int)
    | InvalidAccept(accept: string)
    | UnsupportedExtension(name: string)
    | ClientExtensionRejected(name: string)
    | UnsupportedProtocol(protocol: string)
    | TooManyRedirects
    | EmptyLocation
    | MissingCredentials
    | UnsupportedAuthMode(mode: string)
    | AuthenticationRequired(challenge: string)
    | NoResponse
    | NotGetRequest
    | NotHttpResponse

  datatype Error =
    | InvalidMaskingKey                 // ValueError('invalid masking key')
    | PayloadTooLong                    // Exception('the payload length is too damn high!')
    | ZeroFragmentSize                  // ValueError from range() with a zero step
    | NoFragments                       // IndexError: frames[0] of an empty list
    | TypeError(what: string)           // a value used as something it is not
    | AttributeMissing(name: string)    // AttributeError
    | ReadOnlyAttribute(name: string)   // AttributeError: can't set attribute
    | UnexpectedDataFrame               // ValueError('expected continuation/control frame ...')
    | ExpectedCloseFrame                // ValueError('expected CLOSE frame ...')
    | SocketClosed(flag: Option<bool>)  // errors.SocketClosed; recvn's end-of-stream has no flag
    | UnsolicitedPong                   // PingError('received PONG while no PING was sent')
    | PongPayloadMismatch               // PingError('received PONG with invalid payload')
    | UnrecognizedParameter(key: string)  // KeyError('unrecognized parameter ...')
    | MissingKey(key: string)           // KeyError of a dict lookup
    | InvalidWindowBits                 // ValueError('"max_window_bits" must be an integer' / '... larger than 32768')
    | InvalidNoContextTakeover          // ValueError('"no_context_takeover" must have no value')
    | CompressedControlFrame            // ValueError('received compressed control frame')
    | ZlibAssertion                     // AssertionError on the compressor's output
    | UnpackError                       // ValueError: too few values to unpack
    | HandshakeError(reason: HandshakeFailure)
    | SslAfterHandshake                 // SSLError('can only enable SSL before handshake')
    | BadFileDescriptor                 // socket.error EBADF: a closed socket used again
    | BrokenPipe                        // socket.error EPIPE: writing after shutdown(SHUT_WR)

  datatype Result<+T> = Ok(value: T) | Err(error: Error)
}
