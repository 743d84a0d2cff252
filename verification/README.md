# Line-oriented TCP servers: head parser and echo handler

This project models the core of two small Go TCP servers:

- **The head-parsing server** (`sockets-streams`). Its connection handler reads newline-delimited lines until a line that is exactly `"\n"`. It trims each line and hands the lines to an HTTP head parser, `http.Parse`. It answers with JSON `ApiResponse` envelopes.
- **The echo server** (`threads`). Its connection handler answers each line it reads at once with a `{"received", 1, line}` envelope.

The model is functional. A connection is the finite sequence of values `bufio.Reader.ReadString('\n')` hands back: `Line(text)` or `ReadError(message)`. End of stream is the error whose text is `"EOF"`, because both handlers test `err.Error() == "EOF"`. A handler's behaviour is a `Session`: the trace of its `Read` and `Write` actions, plus how it ended. It can end `Returned`, `Crashed` on a Go panic, or `Blocked` when the given reads run out before the handler stops.

Modules:

- `Strings` (`strings.dfy`): the part of Go's `strings` package the servers use. That is `HasSuffix`, `Index`, `Split` with `Join`, and `TrimSpace`, over `seq<char>`.
- `Http` (`http.dfy`): `Request` and `Parse`. Where Go would index out of range and panic, the result is an explicit `Panicked(Panic)` outcome.
- `Conn` (`conn.dfy`): read events, the `ApiResponse` envelope, actions and sessions, and the index of the first event that stops a read loop.
- `HeadServer` (`head_server.dfy`): `handleRequest` of `sockets-streams/main.go`. It is a reference function `HeadSession` plus the loop as written, `HandleRequest`, proved equal to it.
- `EchoServer` (`echo_server.dfy`): `handleRequest` of `threads/tcp.go`. It is built the same way, with `EchoSession` and `HandleRequest`.

Two behaviours of the code are easy to miss:

- On a parse failure, the head-parsing server writes two envelopes, not one. The code has no `return` after writing the 400 envelope, so it goes on to write the `"Hello, world."` envelope with `nil` data.
- The echo server echoes the raw line with its trailing newline (`"hello\n"`), not a trimmed one.

## Model

| member | source | states |
|---|---|---|
| Strings.HasSuffix | sockets-streams/http/http.go:21 | Characterised by `HasSuffixSpec`: a string has the suffix exactly when it is some string followed by the suffix. |
| Strings.HasSuffixSpec | sockets-streams/http/http.go:21 | A string has a suffix exactly when it is some string followed by that suffix. |
| Strings.Index | sockets-streams/http/http.go:29 | The result is -1 exactly when the separator does not occur; otherwise it is the leftmost position where it occurs. |
| Strings.Split | sockets-streams/http/http.go:29 | There is at least one piece, and no piece contains the separator. There are two or more pieces exactly when the string contains the separator. |
| Strings.JoinFirstThree | sockets-streams/http/http.go:29-32 | A join of three or more pieces starts with the first three pieces and the separators between them. After that comes nothing or another separator. |
| Strings.SplitJoin | sockets-streams/http/http.go:35 | Joining the pieces of `Split` with the separator gives the original string back. |
| Strings.SplitOnCharUnique | sockets-streams/http/http.go:29 | For a one-character separator, `Split` is the only cut into separator-free pieces that join back to the string. |
| Strings.SplitOnCharCount | sockets-streams/http/http.go:29-32 | Splitting on a character gives one more piece than the character has occurrences. |
| Strings.ContainsChar | sockets-streams/http/http.go:29 | A one-character separator occurs exactly when the character is a member of the string. |
| Strings.TrimSpace | sockets-streams/main.go:85 | Characterised by `TrimSpaceSpec` and `TrimSpaceUnique`: the one slice with no whitespace at either end and only whitespace outside it. |
| Strings.TrimLeftSpec | sockets-streams/main.go:85 | The result is a suffix of the input. Everything removed is whitespace, and the result does not start with whitespace. |
| Strings.TrimRightSpec | sockets-streams/main.go:85 | The result is a prefix of the input. Everything removed is whitespace, and the result does not end with whitespace. |
| Strings.TrimSpaceSpec | sockets-streams/main.go:85 | The result is a slice of the input with no whitespace at either end, and only whitespace lies outside it. |
| Strings.TrimSpaceUnique | sockets-streams/main.go:85 | Any slice with that property is the trim. |
| Strings.TrimSpaceIdempotent | sockets-streams/main.go:85 | Trimming twice is trimming once. |
| Strings.TrimSpaceAllSpace | sockets-streams/main.go:85 | An all-whitespace line trims to the empty string. |
| Strings.TrimSpaceOfLine | sockets-streams/main.go:85 | A line `t + "\n"`, where `t` has no whitespace at its ends, trims to `t`. |
| Http.Parse | sockets-streams/http/http.go:17-40 | It panics on no lines exactly when there are none. It returns the version error exactly when the request line lacks the `HTTP/1.1` suffix, and that is its only error. On success, the request line has the suffix and at least three space-separated tokens. |
| Http.UnsupportedVersionNeverPanics | sockets-streams/http/http.go:21-23 | A request line without the suffix gives the version error whatever its token count and whatever the header lines. It never panics. |
| Http.ParsedRequestLine | sockets-streams/http/http.go:29-32 | On success, method, path and version are the first three space-free tokens of the request line. Any extra tokens are ignored. |
| Http.SplitRequestLine | sockets-streams/http/http.go:29-32 | Three space-free tokens joined by single spaces split back into exactly those tokens. |
| Http.VersionIsThirdToken | sockets-streams/http/http.go:29-32 | `"GET /a b HTTP/1.1"` parses with version `"b"`. |
| Http.ShortRequestLinePanics | sockets-streams/http/http.go:29-32 | A request line with the suffix but fewer than two spaces indexes out of range. |
| Http.RequestLineTokens | sockets-streams/http/http.go:29-32 | With the suffix present, the token panic happens exactly when the line has fewer than two spaces. |
| Http.Key | sockets-streams/http/http.go:35-36 | Characterised by `HeaderLineParts`: for a line with `": "`, the text before the first one. |
| Http.Value | sockets-streams/http/http.go:35-36 | Characterised by `HeaderLineParts` and `SplitHeaderLine`: the text between the first and the second `": "`. |
| Http.HeaderLineParts | sockets-streams/http/http.go:35-36 | A header's key is the text before the first `": "`. Its value is the text between the first and second `": "`. |
| Http.SplitHeaderLine | sockets-streams/http/http.go:35-36 | `key + ": " + value` splits into exactly `[key, value]` when neither part contains `": "`. |
| Http.ValueStopsAtSecondSeparator | sockets-streams/http/http.go:35-36 | `"A: b: c"` has key `"A"` and value `"b"`. |
| Http.FoldHeaders | sockets-streams/http/http.go:34-37 | Characterised by `FoldHeadersOutcome`, `FoldHeadersKeys` and `FoldHeadersLastWins`. |
| Http.FoldHeadersOutcome | sockets-streams/http/http.go:34-37 | The loop finishes exactly when every header line has `": "`. Otherwise it panics at the first line that lacks one. |
| Http.FoldHeadersKeys | sockets-streams/http/http.go:26-37 | The resulting map's keys are the starting keys plus the keys of every line. Untouched keys keep their values. |
| Http.FoldHeadersLastWins | sockets-streams/http/http.go:34-37 | Each key holds the value from its last line. |
| Http.ParsedHeaders | sockets-streams/http/http.go:25-37 | With a good request line, parsing succeeds exactly when every header line has `": "`; otherwise it panics at the first bad line. The headers map's key set is exactly the lines' keys, and the last duplicate wins. |
| Http.EmptyHeaderLinePanics | sockets-streams/http/http.go:35-36 | An empty header line has no `": "`, so `kv[1]` is out of range and the parse panics at that line. |
| Http.LastDuplicateWins | sockets-streams/http/http.go:34-37 | Two lines with the same key leave the second value. |
| Http.ParseWellFormed | sockets-streams/http/http.go:17-40 | A well-formed head parses to its method, path and version. Its key set is the given keys, and each key holds its last value. |
| Conn.StopIndex | sockets-streams/main.go:63-86 | This is the first read after which the loop does not read again: an error, or a line that is exactly `"\n"`. Every read before it is a data line. |
| Conn.StopIndexAppend | threads/tcp.go:59-79 | Reads after the stop do not move it. |
| Conn.StopIndexPrefix | threads/tcp.go:59-79 | A prefix of the reads that ends before the stop has no stop. One that reaches past it has the same stop. |
| Conn.WrittenAppend | threads/tcp.go:96-99 | The envelopes written by two consecutive stretches of a trace are those of the first, then those of the second. |
| Conn.WrittenReads | threads/tcp.go:59-61 | Reads write nothing. |
| HeadServer.Accumulate | sockets-streams/main.go:61-85 | Characterised by `AccumulateLines`: the trimmed read lines, one for one and in order. |
| HeadServer.AccumulateLines | sockets-streams/main.go:61-85 | The accumulated lines are the trimmed read lines, one for one and in read order. |
| HeadServer.Respond | sockets-streams/main.go:88-120 | Characterised by `StopThenRespond`: one greeting on success, the 400 envelope then the null greeting on the version error, nothing on a panic. |
| HeadServer.HandleRequest | sockets-streams/main.go:55-121 | The loop as written computes the same session as the reference `HeadSession`. |
| HeadServer.EofWritesNothing | sockets-streams/main.go:69-73 | End of stream after any number of data lines returns, and no envelope is written. |
| HeadServer.StopThenRespond | sockets-streams/main.go:75-120 | After the terminator or a non-EOF error, the trimmed lines read before it are parsed. Success writes exactly one `"Hello, world."` envelope carrying the request. The version error writes the 400 envelope, then the greeting with no data. A panic writes nothing. |
| HeadServer.BlankLinesAreData | sockets-streams/main.go:81-85 | Only a line that is exactly `"\n"` stops the loop. An all-whitespace line such as `"\r\n"` is accumulated as `""`. |
| HeadServer.ImmediateTerminatorCrashes | sockets-streams/main.go:81-88 | A terminator as the first read makes the handler parse no lines, which panics. |
| HeadServer.IgnoresAfterStop | sockets-streams/main.go:63-86 | Once the loop has stopped, later input does not change the session. |
| HeadServer.TracePrefix | sockets-streams/main.go:63-86 | The session on a prefix of the reads has a trace that is a prefix of the full trace. If blocked, it has written nothing. |
| HeadServer.ExampleGetWithHeader | sockets-streams/main.go:63-120 | A GET head with one header yields one greeting carrying method, path, version and that header. |
| HeadServer.ExampleUnsupportedVersion | sockets-streams/main.go:90-120 | A request line ending in `HTTP/2` yields the 400 envelope, then the greeting with no data. |
| EchoServer.EchoTrace | threads/tcp.go:59-100 | For a run of data lines, position `2i` of the trace reads line `i` and position `2i+1` writes its echo. |
| EchoServer.HandleRequest | threads/tcp.go:53-101 | The loop as written computes the same session as the reference `EchoSession`. |
| EchoServer.WrittenEchoTrace | threads/tcp.go:82-99 | A run of data lines writes exactly their echoes, in order. |
| EchoServer.EchoesEveryDataLine | threads/tcp.go:59-100 | Exactly the data lines before the first stopping read are echoed, one `{"received", 1, line}` each, in order. The handler returns at the stopping read, whether it is EOF, another error or the terminator, and is blocked exactly when there is none. |
| EchoServer.WriteBeforeNextRead | threads/tcp.go:59-100 | Each echo is written right after its line is read and before the next read. |
| EchoServer.IgnoresAfterStop | threads/tcp.go:65-79 | Once the loop has stopped, later input does not change the session. |
| EchoServer.EchoTracePrefix | threads/tcp.go:59-100 | The echo trace of a prefix of the data lines is a prefix of their echo trace. |
| EchoServer.TracePrefix | threads/tcp.go:59-100 | The session on a prefix of the reads has a trace that is a prefix of the full trace. Envelopes already written stay written when the connection later ends. |
| EchoServer.EchoKeepsNewline | threads/tcp.go:82-86 | When reads return whole lines, every echoed payload is the raw line and still ends with `'\n'`. |
| EchoServer.ExampleHello | threads/tcp.go:77-86 | `"hello\n"` then `"\n"` yields one echo of `"hello\n"`, and the handler returns. |
| EchoServer.ExampleCarriageReturn | threads/tcp.go:77-86 | `"\r\n"` is data, not the terminator, and is echoed. |

## Left out

- Process and socket plumbing is not modelled: the `main` accept loops, goroutines, `net.Listen`, flag parsing, logging, and `conn.Close` with its `defer`. A session says nothing about closing the connection.
- The byte stream under `bufio.NewReader` is not modelled. Re-creating the reader on every iteration can drop buffered bytes. The input is taken to be the sequence of values `ReadString` returned, so that effect is not modelled.
- Partial data returned together with an error is not modelled. The handlers ignore `line` whenever `err != nil`, so a `ReadError` carries only the message.
- The JSON bytes of `json.Marshal` are not modelled. An envelope is a datatype, and each `Write` stands for one marshalled envelope followed by `"\n"`.
- The marshal-failure branches are not modelled: sockets-streams/main.go:97-101 and 113-117, and threads/tcp.go:89-93. These types always marshal, so the branches are unreachable.
- Strings.TrimSpace: removes only ASCII whitespace (space, tab, newline, vertical tab, form feed, carriage return), not the full Unicode set Go's `TrimSpace` removes.
- Strings.Split: is modelled only for a non-empty separator. Both call sites use `" "` or `": "`.
- `Parse` returns a `*Request` and an `error`; the model does not use Go references, and the two results become `Parsed(request)` and `Failed(message)`. On failure the greeting's `Data` is `nil`, which is `Null`.
- The concrete text of Go's panics is not modelled. The `Panic` value names which index expression failed, and a crashed session records it.
- `Crashed` records an unrecovered panic for one connection. In Go, a panic that nothing recovers in the `handleRequest` goroutine runs the deferred `conn.Close` and then ends the whole server process, closing every other connection. The model does not follow that.
- Go strings are byte strings; the model's strings are `seq<char>`, so input that is not valid UTF-8 cannot be represented. The separators `" "`, `": "`, `"\n"` and the trimmed whitespace are all ASCII, so nothing modelled here depends on the difference.
