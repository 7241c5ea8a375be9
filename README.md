# A verified model of a small HTTP/1.1 engine

This project models the three sequential pieces of a hand-written HTTP/1.1
engine written in Go.

- **Header parsing** (`internal/headers/headers.go`), module `Headers`.
  - `Headers.Parse` consumes one `key: value` CR LF line from a buffer.
  - The key is first trimmed and lower-cased, and then checked against the
    source's own character set. A repeated key is folded into the existing entry
    with `", "`.
  - It reports the bytes consumed and whether the blank line ending the block
    comes next.
  - The pure function `ParseLine` states one call. The class `Headers` holds the
    map, and its `Parse` method updates it in place and is proved to agree with
    `ParseLine`.
- **Incremental request parsing** (`internal/request/request.go`), module `Request`.
  - `ParseRequestLine` validates `METHOD SP TARGET SP HTTP/1.1` (section 3 of
    RFC 9112).
  - `Step` is the forward-only state machine of `Request.parse`. The class
    `Request` with its `Parse` method mirrors it field by field.
  - `RequestFromReader` is the imperative driver. It keeps a character array that
    starts at 8 bytes and doubles when full. It reads into the free tail, runs one
    parse step per read and moves the unparsed tail to the front.
  - The ghost function `Next` states one pass of that loop over the whole input
    and the read size, and `Run` repeats it until the done state or an abort. The
    driver is proved to carry out `Run` exactly: it returns a request precisely
    when `Run` ends in one with a complete request line, and then that request.
  - The input is the test suite's `chunkReader` (module `Reader`). It hands out a
    fixed string a few bytes at a time, then end-of-file.
- **Response writing** (`internal/response/response.go`), module `Response`.
  - `WriteStatusLine` writes one of three byte-exact status lines, and
    `GetDefaultHeaders` builds the default map.
  - `WriteHeaders` writes one `k: v` CR LF line per entry and then the blank line.
  - The output stream is a `Sink`. It records the chunks of the successful writes,
    and one chosen write can fail.
  - A header block written this way is proved to parse back, through `ParseLine`,
    into the map it came from, when the map is writable: every key is a valid
    lower-case field name of at least two characters, and every value is trimmed
    and free of CR LF. Other maps are written as well, but need not come back
    the same: a key `Host` comes back as `host`, and a value ` x` as `x`.
- Module `Text` holds ASCII stand-ins for the Go library calls the core uses:
  `bytes.Index` for CR LF, `strings.Index`, `strings.Split`, `strings.ToLower`,
  `strings.TrimSpace`, `strconv.Atoi` and `strconv.Itoa`. Each character models
  one byte.

The model follows the code as written, including its quirks, and proves each
quirk:

- The method list holds `DETELE` and not `DELETE`. `DETELE /coffee HTTP/1.1` is
  accepted and `DELETE` is rejected (`DeteleAccepted`, `DeleteRejected`).
- A target is only checked for space, CR and LF, so `*` and targets without a
  leading `/` are accepted (`AsteriskTargetAccepted`).
- The header key check admits the range `'A'..'z'`. That range also holds `[`,
  `\` and `]`, which the `tchar` rule of RFC 9110 does not
  (`KeyCharIsTCharOrBracket`). A key of length 1 is rejected and the empty key is
  not.
- When `Headers.Parse` reports done after a field line, it has not consumed the
  blank line.
  - The request parser therefore enters the body state with CR LF still unparsed
    (`BlankLineLeftInBuffer`).
  - Under a `content-length` equal to the body size, that CR LF counts as body
    and overflows it (`LeftoverBlankLineOverflowsBody`).
- `internal/headers/headers_test.go:12-19` expects `done == false` for
  `Host: localhost:42069` followed by the blank line. The code returns
  `done == true`, and the model follows the code (`ParseLineSingleHostIsDone`).
- End-of-file forces the done state (request.go:58-61). A request whose headers
  never ended is therefore returned as a success, provided its request line was
  set. For every read size of at least one, a valid request line with a target,
  followed by bytes without CR LF, comes out as a request with no headers and no
  error (`HeadersNeverEnd`, `UnterminatedHeadersSucceed`,
  `ReadUnterminatedHeaders`). The "Empty Headers" case of
  `internal/request/request_test.go:184-191` is one instance
  (`EmptyHeadersRequest`).
- The comment at request.go:75 doubts the consumed count. The model settles it:
  every successful step consumes at most the bytes it was given
  (`StepKeepsInvariant`). So the compaction at request.go:76-77 keeps the read
  index within the buffer and moves exactly the unparsed tail (`ParseBuffered`,
  `DropParsed`).

## Model

| member | source | states |
|---|---|---|
| Text.IndexCrlf | internal/request/request.go:143 | the index of the first CR LF, or -1 exactly when there is none |
| Text.IndexOf | internal/headers/headers.go:33 | the index of the first occurrence of the character, or -1 exactly when it does not occur |
| Text.Split | internal/request/request.go:149 | the parts hold no separator and join back to the input; there is one part exactly when the separator does not occur |
| Text.SplitJoin | internal/request/request.go:149 | splitting a join of separator-free parts gives those parts back |
| Text.ToLower | internal/headers/headers.go:42 | same length, every letter lower-case, each byte mapped on its own |
| Text.ToLowerIdentity | internal/headers/headers.go:17 | a string with no upper-case letter is left unchanged |
| Text.TrimSpace | internal/headers/headers.go:42-43 | the result neither starts nor ends with white space |
| Text.TrimSpaceRemovesSpace | internal/headers/headers.go:42-43 | the result is a slice of the input, and everything cut off on either side is white space |
| Text.TrimSpaceAfterSpace | internal/headers/headers.go:43 | a trimmed value written after one space comes back as it was |
| Text.Atoi | internal/request/request.go:122 | a parsed number starts with a digit or a sign; a string of digits parses to its decimal value |
| Text.AtoiAccepts | internal/request/request.go:122-125 | a string is accepted exactly when it is digits, with or without one leading sign, and not empty after the sign |
| Text.AtoiSigned | internal/request/request.go:122 | a leading `+` keeps the value of the digits and a leading `-` negates it |
| Text.NatToDecimal | internal/response/response.go:47 | a non-empty string of digits whose decimal value is the number, with no leading zero |
| Text.Itoa | internal/response/response.go:47 | the decimal spelling parses back to the same integer |
| Headers.KeyChar | internal/headers/headers.go:65-76 | a byte the key check accepts (letters and digits, `AllowedSymbols` from `allowedChars`, and the range `'A'..'z'`) is never a colon, white space, CR or LF |
| Headers.ValidKey | internal/headers/headers.go:67-79 | a key that passes the check holds no colon and no white space |
| Headers.KeyCharIsTCharOrBracket | internal/headers/headers.go:65-79 | the key character set is exactly the RFC 9110 `tchar` set plus `[`, `\` and `]` |
| Headers.Lookup | internal/headers/headers.go:16-20 | a found value is one of the map's values; a missing key gives the empty string |
| Headers.LookupCaseInsensitive | internal/headers/headers.go:16-20 | over lower-case keys, `Get` finds a key exactly when some stored key matches it up to case, returns that entry, and returns "" when it finds none |
| Headers.ParseLine | internal/headers/headers.go:24-63 | never consumes more than it was given; a rejected line consumes nothing, is not done and leaves the map as it was |
| Headers.ParseLineNeedsMore | internal/headers/headers.go:25-28 | (0, not done, no error, map unchanged) exactly when the data holds no CR LF |
| Headers.ParseLineBlank | internal/headers/headers.go:29-31 | CR LF at offset 0 gives (2, done, no error) and the map unchanged |
| Headers.ParseLineNoColon | internal/headers/headers.go:33-36 | a line without `:` is an error that consumes nothing and leaves the map unchanged |
| Headers.SplitField | internal/headers/headers.go:33-47 | an accepted line holds a colon, and its key passes the key check and is lower-case |
| Headers.SplitFieldAt | internal/headers/headers.go:33-47 | the line is rejected exactly when the name is empty, ends in a space or fails the key check; otherwise the key is the trimmed lower-cased name and the value is the trimmed rest |
| Headers.ParseLineField | internal/headers/headers.go:32-62 | a line is rejected iff its name is empty, ends in a space or has an invalid key; otherwise it consumes the line and its CR LF, is done exactly when CR LF follows, and changes only the entry of its key, inserting the value or folding it in after ", " |
| Headers.ParseLinePreservesValid | internal/headers/headers.go:40-55 | every key the map holds stays a valid lower-case key |
| Headers.ParseFieldLine | internal/headers/headers.go:40-62 | a written `name: value` line is consumed whole, is done exactly when CR LF follows, and inserts the value under the lower-cased name or folds it in after ", " |
| Headers.ParseLineSingleHostIsDone | internal/headers/headers_test.go:12-19 | the single Host line followed by the blank line gives 23 consumed, done true, and host = localhost:42069 |
| Headers.Headers.constructor | internal/headers/headers.go:12-14 | a new header map is empty |
| Headers.Headers.Get | internal/headers/headers.go:16-20 | a key is found exactly when its lower-cased form is stored, and then its value comes back, otherwise ""; over a map `Parse` built, that is exactly when some stored key matches it up to case |
| Headers.Headers.Parse | internal/headers/headers.go:24-63 | the consumed count, done flag, error and new map are exactly those of `ParseLine` on the old map; an error consumes nothing and changes nothing |
| Request.ParseVersion | internal/request/request.go:153-163 | accepts only the field `HTTP/1.1` and returns version 1.1 |
| Request.VersionAccepts | internal/request/request.go:153-163 | the version field is accepted iff it is exactly `HTTP/1.1` |
| Request.ParseWords | internal/request/request.go:149-176 | an accepted line is a valid request line that writes back to the same text |
| Request.RequestLineWords | internal/request/request.go:149-183 | three space-free words are accepted iff the method is listed, the version is HTTP/1.1 and the target has no CR or LF; the result is those words |
| Request.ParseWordsIff | internal/request/request.go:149-183 | a written-out line parses back to itself iff it is valid, and is rejected otherwise |
| Request.ParseRequestLine | internal/request/request.go:142-184 | it asks for more input iff there is no CR LF; on success the line is valid, the consumed count is the CR LF index plus 2, and the consumed bytes are the line written out |
| Request.ParseFormattedRequestLine | internal/request/request.go:142-184 | a valid request line followed by anything parses back to itself and consumes exactly its own bytes |
| Request.FormatRequestLineInjective | internal/request/request.go:178-183 | two valid request lines with the same text are equal |
| Request.MalformedRequestLine | internal/request/request.go:149-176 | a rejected input does have a CR LF, and its first line is not any valid request line |
| Request.MethodsAreTokens | internal/request/request.go:40 | no listed method holds a space, CR or LF |
| Request.DeteleAccepted | internal/request/request.go:40 | `DETELE /coffee HTTP/1.1` is accepted |
| Request.DeleteRejected | internal/request/request.go:165-168 | `DELETE /coffee HTTP/1.1` is rejected |
| Request.AsteriskTargetAccepted | internal/request/request.go:170-176 | `POST * HTTP/1.1` is accepted |
| Request.Step | internal/request/request.go:90-140 | the state moves forward by at most one stage per call and never back; an error leaves the state as it was; the request line is never replaced once set; in the done state every call is an error that consumes nothing |
| Request.InitialInv | internal/request/request.go:46-49 | a fresh request satisfies the invariant |
| Request.StepKeepsInvariant | internal/request/request.go:90-140 | a successful step consumes at most the bytes it was given and keeps the invariant |
| Request.StepWaitsForLine | internal/request/request.go:92-110 | before the body, a step is a no-op that consumes nothing exactly when there is no CR LF |
| Request.StepBody | internal/request/request.go:115-136 | under `content-length` n, the data is appended to the body; it is an error iff the body would exceed n, done iff it reaches n, and everything is consumed otherwise |
| Request.StepNoContentLength | internal/request/request.go:116-120 | without `content-length`, the step moves to done, consumes nothing and leaves the body empty |
| Request.StepBadContentLength | internal/request/request.go:122-125 | in the body state, a `content-length` that `Atoi` rejects is an error that consumes nothing and changes nothing |
| Request.BlankLineLeftInBuffer | internal/request/request.go:103-114 | the last header line moves the parser to the body state without consuming the blank line after it |
| Request.LeftoverBlankLineOverflowsBody | internal/request/request.go:122-130 | a body of exactly `content-length` bytes behind the leftover CR LF is an error |
| Request.StepTakesFromData | internal/request/request.go:90-140 | the request line comes from the front of the data, and the body only ever grows by the data given |
| Request.Request.constructor | internal/request/request.go:46-49 | a new request is in the initial state with an empty header map |
| Request.Request.Parse | internal/request/request.go:90-140 | consumed count, error and new fields are exactly those of `Step` on the old fields |
| Request.Grow | internal/request/request.go:52-56 | a fresh buffer of twice the length that starts with the old contents and is zero after them |
| Request.ShiftLeft | internal/request/request.go:76 | the buffer after the first k bytes moves to the front; the last k bytes stay as they were |
| Request.DropParsed | internal/request/request.go:76-77 | after dropping k bytes, the first `filled - k` bytes are the old filled bytes after the first k |
| Request.FillBuffer | internal/request/request.go:51-68 | the buffer grows only when full; the read fills its tail with the next bytes of the stream, and the filled prefix is the unparsed part of the stream |
| Request.ParseBuffered | internal/request/request.go:70-77 | the result and the new request are exactly `Step` on the old request and the filled bytes; on success it consumed at most the filled bytes, and the front of the buffer now holds the filled bytes it did not consume |
| Request.TracksStep | internal/request/request.go:70-77 | each successful step keeps the request line at the front of the stream and keeps the body a run of the stream |
| Request.TracksResult | internal/request/request.go:79-87 | the stream starts with the request line, and the body is a run of the stream after it |
| Request.Next | internal/request/request.go:51-78 | one loop pass either reads at least one byte or ends in the done state; at end of input it sets done; it can abort only before end of input, and always does when the read size is 0 |
| Request.NextFits | internal/request/request.go:51-78 | a pass that does not abort leaves a configuration that fits the stream again |
| Request.NextAdvances | internal/request/request.go:57-77 | a pass that reads n bytes and whose step succeeds moves the position by n and keeps exactly the unconsumed bytes buffered |
| Request.NextFails | internal/request/request.go:70-73 | a pass whose step fails aborts |
| Request.StepRound | internal/request/request.go:57-77 | a pass before end of input runs one step on the bytes from the first unparsed one to the end of the read, and aborts exactly when that step fails |
| Request.NextReadsNothing | internal/request/request.go:65-67 | a pass whose read delivers nothing before end of input aborts |
| Request.NextAtEnd | internal/request/request.go:58-61 | a pass at end of input reads nothing, keeps the buffered bytes and sets the done state |
| Request.Run | internal/request/request.go:51-78 | a run that does not abort ends in the done state with the invariant kept; from the done state it ends at once |
| Request.RunNext | internal/request/request.go:51-78 | a pass that does not abort leads to a configuration whose run is the same |
| Request.RunEnd | internal/request/request.go:58-61 | at end of input a run ends with the request as it is, in the done state |
| Request.RunAborts | internal/request/request.go:63-73 | a pass that aborts makes the whole run abort |
| Request.NextTracks | internal/request/request.go:51-78 | each pass keeps the request line at the front of the stream and the body a run of the stream |
| Request.RunTracks | internal/request/request.go:51-78 | the request a run ends with has its line at the front of the stream and its body a run of the stream |
| Request.RunRequestLine | internal/request/request.go:42-88 | when a run ends with a valid request line, that line is what `parseRequestLine` reads from the whole stream, and the body sits after it |
| Request.RunWithoutCrlf | internal/request/request.go:79-83 | an input with no CR LF never sets the request line, so the request line check fails |
| Request.RunWithoutReads | internal/request/request.go:65-67 | a read size of 0 on a non-empty input aborts |
| Request.HeadersWait | internal/request/request.go:103-110 | while no CR LF is buffered, a headers pass only reads more and consumes nothing |
| Request.HeadersNeverEnd | internal/request/request.go:58-61 | headers whose bytes never hold a CR LF end in the done state at end of input, with the request as it was |
| Request.LinePrefixNoCrlf | internal/request/request.go:143-146 | no proper prefix of a written request line holds a CR LF |
| Request.LineThenNoCrlf | internal/request/request.go:42-88 | a valid request line followed by bytes without CR LF runs to a done request with that line and no headers or body |
| Request.LineParsed | internal/request/request.go:92-102 | the pass that reads the last byte of the request line parses it and keeps exactly the bytes after it buffered |
| Request.UnterminatedHeadersSucceed | internal/request/request.go:58-61 | for every read size of at least one, a valid request line with a target followed by bytes without CR LF runs to a done request with that line, no headers and no body, and no part of the line missing |
| Request.EmptyHeadersRequest | internal/request/request_test.go:184-191 | the "Empty Headers" input read two bytes at a time runs to a done request with line `GET / HTTP/1.1` and nothing missing |
| Request.ReadMore | internal/request/request.go:52-68 | the buffer doubles only when full; end-of-file is reported exactly at the end of the input and sets the done state; otherwise the read delivers min(per-read size, bytes left, room left) bytes and moves the position by them |
| Request.ParsedWindow | internal/request/request.go:70-77 | a step on the buffered bytes ending at the read position leaves unconsumed exactly the last bytes before that position, and `Next` ends the round there, or aborts when the step fails |
| Request.ParseRead | internal/request/request.go:68-77 | a read followed by a step is exactly the pass `Next` states: it aborts iff the step fails, and otherwise leaves the configuration `Next` gives, with the buffer consistent with the stream |
| Request.Round | internal/request/request.go:51-78 | one loop pass is exactly `Next` on the current configuration; it stops iff it hit end of input, then in the done state; it aborts iff the read delivered nothing or the step failed; otherwise it reads at least one byte |
| Request.ReadLoop | internal/request/request.go:42-78 | the loop succeeds exactly when `Run` from the start configuration ends in a request, and then it holds that request |
| Request.RequestFromReader | internal/request/request.go:42-88 | it returns null iff `Run` aborts or ends with a part of the request line missing, and otherwise the request `Run` ends with; an input with no CR LF, or a non-empty input read at size 0, gives null; on success the line is what `parseRequestLine` reads from the stream, with a non-empty target, and the error flag is set iff the body is shorter than `content-length` |
| Request.ReadUnterminatedHeaders | internal/request/request_test.go:184-191 | a valid request line with a target, then bytes without CR LF, read at any size of at least one, give a request with no error |
| Reader.ChunkReader.constructor | internal/request/request_test.go:12-16 | the reader starts at position 0 over its data |
| Reader.ChunkReader.Read | internal/request/request_test.go:20-29 | end-of-file exactly at the end of the data; otherwise it copies min(per-read size, bytes left, room left) bytes and advances past them, and changes nothing else in the buffer |
| Response.Sink.Write | internal/response/response.go:39 | the call count goes up by one; the write fails exactly on the chosen call; a successful write appends its bytes as one chunk and a failed write appends nothing |
| Response.StatusLine | internal/response/response.go:29-38 | a status line exists exactly for 200, 400 and 500 |
| Response.StatusDigits | internal/response/response.go:16-20 | the three codes are spelled `200`, `400` and `500` |
| Response.StatusLineOK | internal/response/response.go:30-31 | the line for 200 is exactly `HTTP/1.1 200 OK` CR LF |
| Response.StatusLineBadRequest | internal/response/response.go:32-33 | the line for 400 is exactly `HTTP/1.1 400 Bad Request` CR LF |
| Response.StatusLineInternalServerError | internal/response/response.go:34-35 | the line for 500 is exactly `HTTP/1.1 500 Internal Server Error` CR LF |
| Response.WriteStatusLine | internal/response/response.go:27-44 | another code is an error that writes nothing; a supported code makes one write of its status line, and the error is exactly that write's failure |
| Response.DefaultHeaders | internal/response/response.go:46-54 | every key of the default map passes the key check and is lower-case |
| Response.DefaultHeadersContent | internal/response/response.go:46-54 | exactly three entries: `connection: close`, `content-type: text/plain`, and a `content-length` that a case-insensitive `Get` finds and `Atoi` turns back into the given number |
| Response.DefaultHeadersWritable | internal/response/response.go:46-54 | every default key is a lower-case field name and every value is trimmed and free of CR LF |
| Response.WriteHeaders | internal/response/response.go:56-66 | one field-line write per key in iteration order, then the blank line; it is an error iff one of the field-line writes fails, and then nothing after it is written; a failed blank-line write is not reported |
| Response.WriteFieldLines | internal/response/response.go:57-62 | the field lines go out in order until the first failed write, which ends the loop |
| Response.KeyOrder | internal/response/response.go:57 | the iteration order lists every key of the map exactly once |
| Response.SerializeFieldsLength | internal/response/response.go:58 | the field lines take `|k| + |v| + 4` bytes per entry |
| Response.HeaderBlockBytes | internal/response/response.go:56-63 | a complete header block is the field lines and then CR LF, `|k| + |v| + 4` bytes per entry plus 2 |
| Response.FlattenLines | internal/response/response.go:58 | the chunks of the field-line writes put exactly the serialised field lines on the wire |
| Response.ParseFieldBlock | internal/request/request.go:103-114 | calling `Headers.Parse` until done, failure or a wait keeps every stored key valid and lower-case |
| Response.ParseSerializedFields | internal/response/response.go:56-63 | reading a written header block back with `Headers.Parse` reaches done and adds exactly the written entries to the map it started from |
| Response.WrittenHeadersParseBack | internal/response/response.go:56-63 | a writable map written in any iteration order parses back into the same map, with done reached |

## Left out

- `internal/server/server.go` is not part of this model. It is socket handling,
  a goroutine per connection and an atomic running flag.
- `cmd/httpserver/main.go` and the other commands are not part of this model.
  They are demo handlers, a proxy, file and signal handling.
- The empty `Writer` struct (response.go:12) has no behaviour.
- `fmt.Println` (response.go:64) and every error message's text are left out.
  Errors are a boolean `failed` or `err`.
- Reads are limited to the test suite's `chunkReader`. A general `io.Reader`
  error other than end-of-file (request.go:63) cannot arise from it and is not
  modelled.
- Writes either append all of their bytes or fail and append nothing. A short
  write without an error is not modelled.
- The iteration order of a Go map is chosen by the runtime, so it is an input
  of `WriteHeaders`. `KeyOrder` shows that such an order always exists.
- Unicode is not modelled. Each character is one byte, and `ToLower` and
  `TrimSpace` act on ASCII only.
- `strconv.Atoi` range errors are not modelled: `Atoi` accepts an optional sign
  and digits of any size.
- The parse is not proved independent of chunk boundaries, and it is not. One
  step runs per read and end-of-file forces done, so the outcome can depend on
  the read size.
- The `totalBodyParsed` counter is modelled, and the invariant of `Step` bounds
  it by the body length and makes it equal to that length in the body state.
  Nothing else is proved about it, because the source never reads it.
