# ntfy server logging helpers — a Dafny model

This project models the pure decision logic of ntfy's `server/log.go`:

- `httpContext` — the log fields `http_method` and `http_path` attached to a
  request's log entries, where `http_path` is the raw request URI, or the URL
  path when the raw request URI is empty;
- `websocketErrorContext` — the log fields for a WebSocket error: `error`
  always, plus `error_code` and `error_type = "websocket.CloseError"` exactly
  when the error is a close error;
- `renderHTTPRequest` — the human-readable dump of an HTTP request used in
  trace logs: the request line, one `Name: value` line per header value, a
  blank line, and then the body section. The body section is the peeked body
  as text when it is UTF-8 (followed by ` ... (peeked 4096 bytes)` when the
  4096-byte peek limit was reached), a hex note when it is not, or, if
  peeking failed, a single `(could not read body: …)` line that replaces the
  whole dump. The result is whitespace-trimmed at both ends.

Go strings are byte strings, so all text is `Bytes.Text = seq<byte>`. The
outcome of peeking the body is an input (`ServerLog.PeekResult`). The Go
library pieces the renderer relies on are modelled in their own modules,
each with an independent partner definition:

- `Utf8` — `utf8.Valid`: the UTF-8 grammar of section 4 of RFC 3629 is the
  reference predicate `Utf8.Valid`. A table-driven scanner in the style of
  Go's (first-byte width plus an accepted range for the second byte) is the
  executable method `Utf8.IsValid`, proved equal to it. Encoding and decoding
  of scalar values (section 3 of RFC 3629) close the loop: a byte string is
  valid exactly when it encodes some sequence of scalar values.
- `Hex` — the `%x` verb on a byte slice: two lower-case digits per byte,
  with a decoder proved to be its inverse.
- `Decimal` — the `%d` verb on a non-negative integer, with a value function
  proved to be its inverse.
- `Trim` — `strings.TrimSpace`, characterized by what it drops (only
  whitespace, at both ends) and what it keeps (everything between the first
  and last non-space byte).

The header map is a sequence of (name, values) entries in one possible
iteration order. Go randomizes map iteration, so the properties state only
which lines appear and that, when the names are distinct as in a Go map, the
lines of one header name appear together, in the order of its values.

## Model

| member | source | states |
|---|---|---|
| ServerLog.HttpContext | server/log.go:49-58 | the context has exactly the keys `http_method` and `http_path`; the method is the request method; the path is the raw request URI when that is non-empty and the URL path otherwise, so it is empty exactly when both are empty |
| ServerLog.WebsocketErrorContext | server/log.go:60-71 | `error` always holds the error's message; the keys are exactly `error`, `error_code` and `error_type` if and only if the error is a close error, and exactly `error` if and only if it is not; a close error's code and the type name `websocket.CloseError` are recorded |
| RequestRender.RenderHttpRequest | server/log.go:73-99 | `renderHTTPRequest` with the peek outcome as input; its meaning is stated by RenderPeekError, RenderStartsWithRequestLine, RenderShowsHeaderValues, RenderTextBodyAtLimit, RenderTextBodyUnderLimit and RenderBinaryBody, and by Trim.TrimSpaceShape for the final trim |
| RequestRender.RenderPeekError | server/log.go:82-84 | when peeking the body fails, the whole output is `(could not read body: <message>)`, and the request line and headers are discarded |
| RequestRender.RenderStartsWithRequestLine | server/log.go:75 | after a successful peek, the output begins with `<method> <request URI> <protocol>`, for a method that is an HTTP token |
| RequestRender.PairsExact | server/log.go:76-80 | a (name, value) line is emitted if and only if the name is a header name and the value is one of its values |
| RequestRender.PairsContiguous | server/log.go:76-80 | the pairs of one header entry are visited as one contiguous run, in the order of its values, between the entries before and after it |
| RequestRender.EntryLinesContiguous | server/log.go:76-80 | the rendered lines of one header entry form one contiguous run of the header text, in the order of its values, between the lines of the entries before and after it |
| RequestRender.NameInOneEntry | server/log.go:76-80 | when header names are distinct, as in a Go map, no line outside an entry's run carries that entry's name, so all lines of one name form one run |
| RequestRender.LinesAppend | server/log.go:76-78 | rendering the header lines distributes over concatenation of the visited pairs |
| RequestRender.LineInLines | server/log.go:78 | every visited pair's `Name: value` line occurs in the header text |
| RequestRender.PairIndex | server/log.go:76-78 | every value of every header is visited at some position of the iteration |
| RequestRender.HeaderLinesInHead | server/log.go:75-81 | the header lines sit between the request line and the blank line |
| RequestRender.RenderShowsHeaderValues | server/log.go:76-80 | after a successful peek, every header value's `Name: value` line appears in the output, trimmed when it has surrounding whitespace |
| RequestRender.RenderTextBodyAtLimit | server/log.go:85-90 | for a method that is an HTTP token, a UTF-8 body that reached the peek limit renders as the head, the body bytes unchanged, then ` ... (peeked 4096 bytes)` |
| RequestRender.RenderTextBodyUnderLimit | server/log.go:85-90 | a UTF-8 body under the limit is appended without a marker and only the final trim affects it; its trimmed text occurs in the output |
| RequestRender.RenderBinaryBody | server/log.go:91-97 | for a method that is an HTTP token, a non-UTF-8 body is replaced by the hex note, which ends the output |
| RequestRender.HexNoteFields | server/log.go:92-96 | read back field by field, the hex note reports the limit 4096 when it was reached and the peeked length otherwise, and its hex field decodes to exactly the peeked bytes |
| RequestRender.HexNoteTight | server/log.go:93-95 | the hex note is non-empty, opens with `(` and closes with `)` |
| RequestRender.PeekLimitDigits | server/log.go:74 | the limit prints as `4096` |
| RequestRender.SplitCharacterShownAsHex | server/log.go:82-93 | when the peek stops inside a two-byte character after ASCII text, the peeked bytes are not UTF-8 although the full body is, and, for a method that is an HTTP token, the dump is the head followed by the hex note |
| Utf8.Valid | server/log.go:85 | the UTF-8 grammar of section 4 of RFC 3629, the reference for `utf8.Valid`; Utf8.IsValid, Utf8.ValidIffEncoding and Utf8.AsciiPrefix state what it accepts |
| Utf8.IsValid | server/log.go:85 | the table-driven scan accepts a byte string if and only if it matches the UTF-8 grammar |
| Utf8.ValidByScan | server/log.go:85 | a non-empty byte string is valid exactly when its first character scans and the rest is valid |
| Utf8.ScanComplete | server/log.go:85 | the scanner measures any well-formed character at its exact length |
| Utf8.DecodeChar | server/log.go:85 | every well-formed character decodes to a Unicode scalar value that encodes back to the same bytes |
| Utf8.EncodeScalar | server/log.go:85 | every scalar value encodes to one well-formed character |
| Utf8.DecodeEncodeScalar | server/log.go:85 | decoding the encoding of a scalar value gives the value back, so with Utf8.DecodeChar scalar values and well-formed characters correspond one to one |
| Utf8.EncodeValid | server/log.go:85 | the encoding of any sequence of scalar values is valid UTF-8 |
| Utf8.Decode | server/log.go:85 | every valid byte string decodes to scalar values whose encoding is that byte string |
| Utf8.ValidIffEncoding | server/log.go:85 | a byte string is valid UTF-8 if and only if it encodes some sequence of scalar values |
| Utf8.AsciiPrefix | server/log.go:85 | ASCII bytes in front of a string do not change its validity |
| Utf8.AsciiValid | server/log.go:85 | an ASCII string is valid UTF-8 |
| Hex.Encode | server/log.go:93 | `%x` gives two digits per byte, all lower-case hex |
| Hex.EncodeDigits | server/log.go:93 | byte i becomes its high nibble digit followed by its low nibble digit |
| Hex.DecodeEncode | server/log.go:93 | decoding the hex text gives back exactly the bytes |
| Hex.EncodeDecode | server/log.go:95 | every decodable text is the encoding of what it decodes to |
| Decimal.Format | server/log.go:95 | `%d` of a length is a non-empty run of digits with no leading zero |
| Decimal.ValueFormat | server/log.go:95 | the printed digits read back as the number |
| Decimal.FormatInjective | server/log.go:95 | different lengths print differently |
| Trim.TrimSpace | server/log.go:99 | `strings.TrimSpace` as the span between the forward and backward scans; Trim.TrimSpaceShape, Trim.TrimSpaceExact and Trim.TrimSpaceKeepsInfix state what it removes and keeps |
| Trim.TrimSpaceShape | server/log.go:99 | the trimmed text, and so the returned dump, neither starts nor ends with whitespace, and it is the input with only whitespace removed from each end |
| Trim.StartScan | server/log.go:99 | the forward scan skips whitespace only and stops on the first non-space byte |
| Trim.StopScan | server/log.go:99 | the backward scan skips whitespace only and stops after the last non-space byte |
| Trim.TrimSpaceExact | server/log.go:99 | trimming whitespace around text that is already tight gives exactly that text |
| Trim.TrimSpaceTight | server/log.go:99 | trimming is the identity on tight text |
| Trim.TrimSpaceIgnoresTrailing | server/log.go:99 | trailing whitespace does not change the trimmed result |
| Trim.TrimSpaceKeepsPrefix | server/log.go:99 | a tight prefix of the input is a prefix of the trimmed output |
| Trim.TrimSpaceKeepsInfix | server/log.go:99 | the trimmed form of any part of the input occurs in the trimmed output |
| Trim.LineSurvivesTrim | server/log.go:99 | a line followed by more text survives the final trim, whole when it is tight |

## Left out

- The logging wrappers `logr`, `logv`, `logvr`, `logvrm`, `logvm` and `logem` (server/log.go:14-47) only attach tags and contexts through the log library, which is not part of this model; so are the merging and tag semantics of `log.Context`.
- `util.Peek` is not part of this model: its outcome is the input `PeekResult`, and nothing is assumed about it (not even that at most 4096 bytes were peeked). Its replay guarantee, that the reset body still yields every original byte, is therefore not stated.
- `r.Body = body` (server/log.go:98) is a side effect on the request; the model's renderer is a pure function and does not model it.
- `r.URL.RequestURI()` comes from net/url, which is not part of this model: the request line uses it as an opaque field `target`. It differs from the raw `RequestURI` that `httpContext` uses.
- The `Error()` text of a WebSocket close error is given as the error's `message`; its construction inside the WebSocket library is not modelled.
- Trim.TrimSpace: treats only Go's ASCII whitespace (tab, newline, vertical tab, form feed, carriage return, space) as space. The Unicode spaces that `strings.TrimSpace` also removes (such as U+0085 and U+00A0) are not modelled.
- RequestRender.RenderShowsHeaderValues: states which header lines appear, not the order across different header names, because Go's map iteration order is unspecified.
- RequestRender.RenderStartsWithRequestLine: requires a method that starts with a non-space byte and a protocol that ends with one. Go's server accepts only such requests, but a hand-built request without them would have its request line trimmed.
- Bytes.Lit maps each character of a literal to its code modulo 256; every literal in the model is ASCII.
- Keeping the bytes read before a failed peek is not something the code does, so it is not modelled: a failed peek replaces the whole dump with one line, request line and headers included.
- The peek limit is the fixed constant 4096 in the code (`ServerLog.PeekLimit`), not a parameter of the renderer.
