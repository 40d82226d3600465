/**
 The pure decisions of server/log.go: the two log-context extractors and
 the text built by `renderHTTPRequest`.

 The request is a plain record of the fields the file reads, and the outcome
 of `util.Peek` on the request body is an input, so every operation here is a
 total function of its arguments.
 */
module ServerLog {
  import opened Bytes
  import opened Trim
  import Utf8
  import Hex
  import Decimal

  /** The parts of a Go `*http.Request` that server/log.go reads. */
  datatype Request = Request(
    verb: Text,                      // r.Method
    requestUri: Text,                // r.RequestURI: the raw request-target, empty on client-built requests
    urlPath: Text,                   // r.URL.Path
    target: Text,                    // r.URL.RequestURI(): the target re-encoded from the parsed URL
    proto: Text,                     // r.Proto, e.g. "HTTP/1.1"
    header: seq<(Text, seq<Text>)>)  // r.Header, listed in one iteration order of the map

  /** A value stored in a log context: the file only stores strings and integers. */
  datatype Value = Str(text: Text) | Int(number: int)

  /** `log.Context`: field name to value. */
  type Context = map<Text, Value>

  /**
   The error handed to `websocketErrorContext`: either a `*websocket.CloseError`,
   which carries a close status code (section 7.4 of RFC 6455), or any other
   error. `message` is what the error's `Error()` method returns.
   */
  datatype WsError = CloseError(code: int, message: Text) | OtherError(message: Text)

  /** The outcome of `util.Peek(r.Body, limit)`: an error, or the bytes read and whether the limit was hit. */
  datatype PeekResult = PeekErr(message: Text) | PeekOk(peeked: Text, limitReached: bool)

  const HttpMethodKey: Text := Lit("http_method")
  const HttpPathKey: Text := Lit("http_path")
  const ErrorKey: Text := Lit("error")
  const ErrorCodeKey: Text := Lit("error_code")
  const ErrorTypeKey: Text := Lit("error_type")
  const CloseErrorType: Text := Lit("websocket.CloseError")

  /** How many body bytes `renderHTTPRequest` asks `util.Peek` for. */
  const PeekLimit: nat := 4096

  // ---------------------------------------------------------------------
  // httpContext and websocketErrorContext
  // ---------------------------------------------------------------------

  /**
   `httpContext(r)`: the request method, and the path taken from the raw
   request-target, or from the parsed URL when the raw target is empty.
   */
  function HttpContext(r: Request): (c: Context)
    ensures c.Keys == {HttpMethodKey, HttpPathKey}
    ensures c[HttpMethodKey] == Str(r.verb)
    ensures r.requestUri != [] ==> c[HttpPathKey] == Str(r.requestUri)
    ensures r.requestUri == [] ==> c[HttpPathKey] == Str(r.urlPath)
    ensures c[HttpPathKey] == Str([]) <==> r.requestUri == [] && r.urlPath == []
  {
    var path := if r.requestUri == [] then r.urlPath else r.requestUri;
    map[HttpMethodKey := Str(r.verb), HttpPathKey := Str(path)]
  }

  /**
   `websocketErrorContext(err)`: a close error yields its message, its close
   code and its type name; any other error yields its message alone.
   */
  function WebsocketErrorContext(e: WsError): (c: Context)
    ensures ErrorKey in c && c[ErrorKey] == Str(e.message)
    ensures e.CloseError? <==> c.Keys == {ErrorKey, ErrorCodeKey, ErrorTypeKey}
    ensures e.OtherError? <==> c.Keys == {ErrorKey}
    ensures e.CloseError? ==> c[ErrorCodeKey] == Int(e.code) && c[ErrorTypeKey] == Str(CloseErrorType)
  {
    match e
    case CloseError(code, message) =>
      assert ErrorCodeKey[6] != ErrorTypeKey[6];
      map[ErrorKey := Str(message), ErrorCodeKey := Int(code), ErrorTypeKey := Str(CloseErrorType)]
    case OtherError(message) =>
      map[ErrorKey := Str(message)]
  }
}
