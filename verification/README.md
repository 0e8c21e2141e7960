# Asio HTTP fetcher and line echo, modelled in Dafny

This project models two small C++ programs.

The first is the HTTP/1.1 fetcher in `006/http_client_main.cc`. Its `main` reads a sites file
with one JSON record per line. For each record naming a `host` and a `path`, it creates an
`HttpClient` and starts it. Each client is a chain of Boost.Asio continuations:

1. resolve the host;
2. connect to the first endpoint;
3. write `GET <path> HTTP/1.1\r\nHost: <host>\r\n\r\n`;
4. `read_until` the blank line `\r\n\r\n` that ends the response header;
5. pick the body framing from the header:
   - `Content-Length: ` leads to a `transfer_exactly` read of the rest of the body;
   - otherwise `Transfer-Encoding: chunked` leads to a `read_until` of the next blank line;
   - otherwise the client logs "Unknown body length" and stops;
6. hand the whole buffer to the body handler as the body.

The second is the end-of-file demo `007/real_eof_main.cc`. It copies standard input to
standard output line by line, with `getline`. It writes a newline after a line only when
`peek` shows that more input follows.

## Structure

- `wrappers.dfy` (`Wrappers`): `Option`.
- `search.dfy` (`Search`): substring search, used both for `std::string::find` and for the
  delimiter search of `read_until`. `FindSpec` characterises the first occurrence.
- `unsigned.dfy` (`Unsigned`): `size_t` subtraction modulo 2^64, and `strtoul` with base 10.
  `strtoul` covers leading white space, an optional sign and a digit run, saturating at
  `ULONG_MAX`.
- `http_wire.dfy` (`HttpWire`): the request bytes, a parser that partners them, and the field
  names the client searches for.
- `http_client.dfy` (`HttpClient`): one client as a pure state machine.
  - Every asynchronous completion is an `Event`.
  - `Step(client, event)` is what the completion handler does with it.
  - The socket is a source of byte chunks (`Received`), appended to the response buffer.
  - `Pending` names the one operation a client has outstanding.
- `client_properties.dfy` (`ClientProperties`): properties of that machine:
  - stages only move forward;
  - errors are final;
  - every reachable client keeps an invariant;
  - both framings deliver the body however the bytes are split into reads.
- `supervisor.dfy` (`Supervisor`): the record loop of `main` and the event loop. A completion
  runs the handler of its own client only.
- `echo.dfy` (`Echo`): the echo loop as a function on character sequences.

Asio reports a completion immediately when it is already satisfied. This happens for a
`read_until` whose delimiter is already buffered, and for a `transfer_exactly(0)`. Asio posts
such a completion to the event loop. The model takes it inside the same `Step`. Clients share
no state, so the outcome is the same.

## Model

| member | source | states |
|---|---|---|
| `HttpWire.RequestBytes` | 006/http_client_main.cc:77 | The request starts with `GET `, ends with the blank line `\r\n\r\n`, carries the path at offset 4 and the host just before the final blank line, and is `\|path\| + \|host\| + 25` bytes long. |
| `HttpWire.RequestRoundTrip` | 006/http_client_main.cc:77 | Parsing the written request gives back the target (host and path), for every path without a space. |
| `HttpWire.ParsedRequestIsWritten` | 006/http_client_main.cc:77 | Everything the parser accepts is exactly the request written for the target it returns, and that target's path has no space. So for paths without a space the request format is unambiguous. |
| `HttpWire.UncheckedPathCollides` | 006/http_client_main.cc:77 | Without that restriction the format is ambiguous: a path carrying ` HTTP/1.1\r\nHost: ` and a host of its own, and a host carrying the same text, give two different targets with the same request bytes. |
| `Search.Find` | 006/http_client_main.cc:120-131 | A position `find` returns leaves room for the whole pattern in the text. That it is the first occurrence, and that it fails exactly when there is none, is stated by `Search.FindSpec`. |
| `Search.FindSpec` | 006/http_client_main.cc:120 | `find` succeeds exactly when the pattern occurs, and then returns its first occurrence. |
| `Search.ResumedSearchFindsFirst` | 006/http_client_main.cc:95-96 | After new bytes arrive in a buffer without the delimiter, searching from `\|prev\| - \|pat\| + 1` finds the same first occurrence as searching the whole buffer, so a delimiter split across reads is found. |
| `HttpClient.Start` | 006/http_client_main.cc:32-37 | A started client has an empty buffer, and its one outstanding operation resolves the host with the `http` service. |
| `HttpClient.Pending` | 006/http_client_main.cc:36-155 | A client has an outstanding operation exactly when it is neither done nor stopped. |
| `HttpClient.Consume` | 006/http_client_main.cc:112 | `consume(n)` drops the first `n` bytes when there are that many, and otherwise empties the buffer. |
| `HttpClient.SplitHeaderSpec` | 006/http_client_main.cc:95-112 | The header is split off exactly when the buffer holds a blank line. The header ends with the first blank line and holds no earlier one, and header followed by the rest is the buffer before `consume`. |
| `HttpClient.FramingPriority` | 006/http_client_main.cc:120-137 | Fixed length is chosen exactly when `Content-Length: ` occurs, even alongside the chunked field. Chunked is chosen only without it. Neither field means unknown length. |
| `HttpClient.DeclaredLength` | 006/http_client_main.cc:120-124 | The declared length is what `strtoul` reads right after the first `Content-Length: `. |
| `HttpClient.SelectFraming` | 006/http_client_main.cc:120-137 | A declared length is at most `ULONG_MAX`, the largest value `strtoul` returns. Which framing is chosen is stated by `HttpClient.FramingPriority`, and which length by `HttpClient.DeclaredLength`. |
| `HttpClient.Finish` | 006/http_client_main.cc:157-177 | The body handler finishes the client. When the buffer holds at least `size` bytes, the body is the `size` bytes consumed followed by what stays buffered; otherwise the buffer is emptied. |
| `HttpClient.AwaitDelimiter` | 006/http_client_main.cc:149-155 | A chunked read either waits or finishes, and keeps the target. When it finishes is stated by `ClientProperties.AwaitDelimiterWaits` and `ClientProperties.AwaitDelimiterFinishes`. |
| `HttpClient.OnHeader` | 006/http_client_main.cc:97-138 | The header handler keeps the target and the request. It leaves the client reading the body or finished, and it stops the client exactly when the header selects neither framing. |
| `HttpClient.AwaitHeader` | 006/http_client_main.cc:95-96 | The client keeps waiting for the header exactly when the buffer holds no blank line. Otherwise the header handler runs, and the client reads the body, finishes or stops. |
| `HttpClient.ReadExactlyStep` | 006/http_client_main.cc:141-146 | A fixed-length read finishes exactly when the bytes received cover what is still to come. Until then all of them are appended, and the count still to come drops by their number. |
| `HttpClient.Step` | 006/http_client_main.cc:36-177 | No handler changes the client's target, and a finished or stopped client ignores every completion. |
| `Unsigned.Sub` | 006/http_client_main.cc:125 | `len - response_.size()` on `size_t` is below 2^64. Its relation to the plain difference is stated by `Unsigned.SubAddsBack`. |
| `Unsigned.SubAddsBack` | 006/http_client_main.cc:125 | `len - response_.size()` on `size_t` adds back to `len` modulo 2^64. It is the plain difference when the buffer holds no more than `len` bytes, and otherwise it wraps to at least 2^64 minus the buffered count. |
| `Unsigned.WrapIsModulo` | 006/http_client_main.cc:125 | The wrap-around used for `size_t` is reduction modulo 2^64. |
| `Unsigned.StrToUL` | 006/http_client_main.cc:122-124 | `strtoul` never returns more than `ULONG_MAX`. What it reads is stated by `Unsigned.StrToULReadsDigitRun`, `Unsigned.StrToULWithoutDigits` and `Unsigned.StrToULDecimal`. |
| `Unsigned.StrToULReadsDigitRun` | 006/http_client_main.cc:122-124 | Text starting with a digit is read as the value of its leading digit run, saturated at `ULONG_MAX`. |
| `Unsigned.StrToULWithoutDigits` | 006/http_client_main.cc:122-124 | Text that is empty, or starts with something other than white space, a sign or a digit, reads as 0. |
| `Unsigned.StrToULDecimal` | 006/http_client_main.cc:122-124 | The decimal text of any `n <= ULONG_MAX`, followed by a non-digit, reads back as `n`. |
| `Unsigned.SkipSpaceSkipsOnlySpace` | 006/http_client_main.cc:122-124 | `strtoul` skips only leading white space, and stops at the first character that is not white space. |
| `ClientProperties.TerminalIsFinal` | 006/http_client_main.cc:157-177 | After the body handler, or after a handler that returned on error, no later completion changes the client. |
| `ClientProperties.StepMovesForward` | 006/http_client_main.cc:36-155 | No step moves to an earlier stage. A step that stays at the same rank either keeps the stage or counts down the remaining bytes of a fixed-length read. |
| `ClientProperties.StepFollowsOrder` | 006/http_client_main.cc:36-155 | The stages come in the order resolve, connect, send, header, body: from a reachable client no step skips a stage except to finish or stop. Only a header or body read finishes. A resolve leads to connecting to its first endpoint, a connect to sending, and a write to waiting for the header. |
| `ClientProperties.UnansweredEventIgnored` | 006/http_client_main.cc:36-155 | A completion the outstanding operation cannot report leaves the client unchanged. |
| `ClientProperties.AnsweredOperationAdvances` | 006/http_client_main.cc:36-89 | A successful resolve, connect or write moves the client to a strictly later stage. |
| `ClientProperties.ErrorStopsClient` | 006/http_client_main.cc:40-162 | An error at any stage stops the client with a failure naming that stage and carrying the code. It leaves the buffers alone, issues nothing further, and every later completion is ignored. |
| `ClientProperties.StartValid` | 006/http_client_main.cc:32-37 | A started client satisfies the invariant of reachable clients. |
| `ClientProperties.StepPreservesValid` | 006/http_client_main.cc:36-177 | Every handler keeps the invariant. It covers the request bytes, the header shape, the framing the header selected, the byte accounting of a fixed-length read, and what a finished body consumed. |
| `ClientProperties.RunPreservesValid` | 006/http_client_main.cc:36-177 | Every client reachable by a sequence of completions keeps the invariant. |
| `ClientProperties.HeaderRead` | 006/http_client_main.cc:95-112 | A read during the header stage only appends when the buffer has no blank line. Otherwise it runs the header handler on a header ending at the first blank line, with header and rest making up the buffer. |
| `ClientProperties.HeaderFoundInPrefix` | 006/http_client_main.cc:95-111 | Once the buffered prefix of a stream holds a blank line, the header split off is the header the stream starts with, even when its blank line was split across reads. |
| `ClientProperties.ContentLengthChosenFirst` | 006/http_client_main.cc:120-126 | Under `Content-Length: ` the read is fixed-length with the declared length, and its size is the declared length minus the buffered bytes on `size_t`. The client keeps reading exactly when that size is not zero. |
| `ClientProperties.ChunkedChosenSecond` | 006/http_client_main.cc:129-135 | With the chunked field and no `Content-Length: `, the client reads up to the next blank line. |
| `ClientProperties.UnknownFramingStops` | 006/http_client_main.cc:137 | With neither field, the client stops with no further read and keeps the rest of the buffer. |
| `ClientProperties.WholeBodyWithHeader` | 006/http_client_main.cc:125-147 | When the whole declared body arrived with the header, the client finishes at once with that body and issues no read. |
| `ClientProperties.ReadExactlyTwice` | 006/http_client_main.cc:144-146 | Two partial reads of a fixed-length body amount to one read of their bytes together. |
| `ClientProperties.ExactReadIgnoresChunking` | 006/http_client_main.cc:144-146 | Feeding a fixed-length read its chunks one by one ends where one read of all of them ends. |
| `ClientProperties.FixedLengthBodyHasDeclaredLength` | 006/http_client_main.cc:125-173 | When no more body bytes came with the header than were declared, a finished fixed-length body has exactly the declared length. |
| `ClientProperties.ChunkedCompletesAtDelimiter` | 006/http_client_main.cc:149-155 | A chunked read completes exactly when the accumulated buffer holds a blank line, and until then it only appends. |
| `ClientProperties.ChunkedBodyIsBuffer` | 006/http_client_main.cc:168-170 | On completion of a chunked read, the body is the entire buffer, and only the bytes through its first blank line are consumed. |
| `ClientProperties.AwaitDelimiterFinishes` | 006/http_client_main.cc:152-170 | A `read_until` that is already satisfied finishes with the whole buffer as body, and leaves only what follows the first blank line. |
| `ClientProperties.ChunkedReadCompletes` | 006/http_client_main.cc:149-155 | However the stream is split into reads, a chunked read ends once a blank line has arrived. Its body is a prefix of the stream that holds the blank line. |
| `ClientProperties.ContentLengthResponse` | 006/http_client_main.cc:95-173 | Fixed-length round trip: whatever reads the response `header + body` arrives in, a client waiting for its header ends with exactly `body`, when the header's first `Content-Length: ` declares `\|body\|` bytes. |
| `ClientProperties.ChunkedResponse` | 006/http_client_main.cc:95-170 | Chunked round trip: whatever reads `header + body` arrives in, a chunked response ends with a prefix of `body` that holds a blank line. |
| `Supervisor.Launch` | 006/http_client_main.cc:223-239 | The loop creates no more clients than there are records. Each client is fresh, resolving, and waiting on the resolve of its own host. |
| `Supervisor.LaunchInOrder` | 006/http_client_main.cc:211-239 | Records are handled one after another, so the clients of a concatenation of record lists are those of the first list followed by those of the second. |
| `Supervisor.LaunchedFromRecord` | 006/http_client_main.cc:223-239 | Every client was started on the target of a record that has both `host` and `path`. |
| `Supervisor.RecordLaunched` | 006/http_client_main.cc:223-239 | Every record with both `host` and `path` gets a client started on its target. |
| `Supervisor.IncompleteSkipped` | 006/http_client_main.cc:237-238 | A record missing a field creates no client. |
| `Supervisor.LaunchedValid` | 006/http_client_main.cc:223-239 | Every created client satisfies the client invariant. |
| `Supervisor.Deliver` | 006/http_client_main.cc:36-177 | A completion for client `i` runs its handler on client `i`, and every other client stays as it was. |
| `Supervisor.RunAll` | 006/http_client_main.cc:242 | The event loop keeps the number of clients. Where each client ends is stated by `Supervisor.RunAllIsolated`. |
| `Supervisor.RunAllIsolated` | 006/http_client_main.cc:242 | After any interleaving of completions, each client is where its own completions alone, in order, would have taken it. |
| `Supervisor.OthersUnaffected` | 006/http_client_main.cc:242 | A client that receives no completion is unchanged, whatever happens to the others, including failures reported through error codes. |
| `Supervisor.RunAllValid` | 006/http_client_main.cc:242 | Every client of the fleet keeps the client invariant under any interleaving. |
| `Echo.GetLine` | 007/real_eof_main.cc:6 | `getline` returns the characters before the first `'\n'` and drops that `'\n'`. Line, newline and remaining input make up the input, or the line is all of the input. |
| `Echo.Lines` | 007/real_eof_main.cc:6 | The loop reads no line exactly when the input is empty, and no line it reads contains `'\n'`. |
| `Echo.Echo` | 007/real_eof_main.cc:6-11 | The output is a prefix of the input, and at most one character shorter. |
| `Echo.EchoStripsFinalNewline` | 007/real_eof_main.cc:6-11 | The output is the input with one trailing `'\n'` removed if there is one. In particular, empty input gives empty output. |
| `Echo.EchoJoinsLines` | 007/real_eof_main.cc:6-9 | The lines are written in order, with a newline between each pair and none after the last. |
| `Echo.NewlineIffMoreInput` | 007/real_eof_main.cc:8-9 | The first line is written first, and a newline follows it exactly when input remains after it. |
| `Echo.NewlinesWritten` | 007/real_eof_main.cc:6-11 | On non-empty input, the number of newlines written is the number of lines read minus one. |

## Left out

- Boost.Asio internals are not modelled: `io_service`, sockets, the resolver, DNS, and the
  multi-buffer iteration of `streambuf`. Resolve and connect are events carrying an endpoint.
  Only the first endpoint is used, as in the code.
- All console output and glog logging are left out, and so is the `print_body` flag. Each
  message is either a log line or a terminal `Stopped` failure in the client's state.
- gflags, the `ifstream` sites file and nlohmann JSON parsing are left out. Records arrive
  already parsed as pairs of optional fields. A line that fails to parse is a record with a
  missing field, and is skipped the same way.
- The `eof`/`getline`/`peek` loop of `main` that splits the sites file into lines is not
  modelled separately. For a non-empty file it is the splitting that `Echo.Lines` models for
  the echo program. An empty file differs: `eof()` is not yet set, so the loop runs once,
  `getline` yields one empty line, its parse fails, and the record is skipped, so no client
  is created. `Echo.Lines` gives no line for empty input.
- The connect handler prints `sock_.remote_endpoint()` with the overload that throws (line 68).
  If the peer has already reset the connection, the `system_error` escapes `io_service.run()`
  and `main` has no handler, so the process ends with every client. The model takes every
  successful connect on to the send. The isolation of `Supervisor.RunAllIsolated` and
  `Supervisor.OthersUnaffected` covers failures reported through error codes only.
- The program writes the path and host into the request unchecked (line 77). The round trip
  `HttpWire.RequestRoundTrip` holds only for paths without a space, and
  `HttpWire.UncheckedPathCollides` shows two targets the program sends as the same request.
- Timeouts and hung connections are left out. A response that never brings the blank line
  simply has no transition to a finished state; no liveness property is claimed.
- Socket reads carry only successful byte chunks in the round-trip lemmas
  (`ClientProperties.ContentLengthResponse`, `ClientProperties.ChunkedResponse`). What an error
  does at any point is stated separately by `ClientProperties.ErrorStopsClient`.
- ClientProperties.ChunkedResponse: states that the body is a prefix of `body` holding a blank
  line, not which prefix. The exact body depends on how the bytes were split into reads, and
  `ClientProperties.ChunkedBodyIsBuffer` states it read by read.
- ClientProperties.ContentLengthResponse: assumes the response stream starts with a complete
  header, and that the buffer holds no blank line before the header read starts.
- Supervisor.Deliver: requires the addressed client to exist. In the program a completion is
  always delivered to the client whose operation it completes.
- The chunked body is not decoded. The code itself does not decode chunk sizes: "done" only
  means a blank line is buffered.
- The model follows the code in these details:
  - a fixed-length read takes at most the bytes still to come from each socket read: the model
    drops the rest of a read (`HttpClient.ReadExactlyStep`), because `transfer_exactly` never
    asks the socket for more, so those bytes stay in the socket and not in the buffer;
  - the body handler consumes only `size` bytes, so bytes after the first blank line stay in
    the buffer;
  - a resolver success always has at least one endpoint, so an empty endpoint list cannot occur;
  - `strtoul` is modelled in full (white space, sign, saturation), not only as the digit run
    after the field name.
- `001/`, `002/`, `003/` and `004/` are not part of this model. They are a Java timing demo,
  a crash demo, Asio event-loop demos and a bulk resolver with timer cancellation.
