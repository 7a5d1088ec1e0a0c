# http-quick-share, modelled in Dafny

http-quick-share is a one-file HTTP server. At startup it reads one file into
memory. It names the file after the last segment of its path. Then it polls a
non-blocking listener, and every client that connects gets the same response:
a fixed status line, three headers ending in bare line feeds, a blank line and
the file's bytes. The server then holds the connection for 1000 ms and shuts it
down. A signal handler clears a `running` flag, and the loop reads that flag
after every would-block and after every completed serve.

The model has eight modules in seven files:

- `Bytes`, `Options` (base.dfy): the byte type, and an optional value. `None`
  is an absent value; where the source calls `unwrap()` on it, `None` is the
  panic.
- `Utf8` (utf8.dfy): the UTF-8 encoding behind `String::as_bytes`. Dafny
  characters are Unicode scalar values. A decoder is included so the round trip
  in both directions can be proved.
- `Decimal` (decimal.dfy): the `usize::to_string` rendering of the content
  length, and its reading back.
- `Response` (response.dfy): the bytes `handle_client` writes, and a reader of
  such responses used as the partner of the builder.
- `PathName` (pathname.dfy): `split("/")`, `Vec::pop` and the display name.
  `Join` and an independent scan for the last separator are partners.
- `AcceptLoop` (acceptloop.dfy): the `for stream in listener.incoming()` loop,
  as a transition function `Step`. It is folded over a finite trace of events
  (`Run`), and the method `Serve` writes the same loop imperatively. Each event
  holds what `accept` returned and the value of `running` read at the end of
  that pass. A `Connection` event also records whether `peer_addr()` and
  `shutdown(Both)` succeeded. The loop's effects are `Write`, `Hold(1000)` and
  `ShutdownBoth`, in source order.
- `Server` (server.dfy): `main` wired together. The response is built from the
  popped name and the startup payload, then run over the trace.

Three details of the loop's behaviour in src/main.rs:

- The flag is `running`, which starts `true` and is set to `false` by the
  handler (src/main.rs:35, 38).
- A failing `peer_addr()` is not a panic. The `?` at src/main.rs:50 returns the
  error from `main`, so it is modelled as its own phase, `Errored`.
- A failing shutdown panics only after the shutdown was attempted, so the
  effects of that serve cycle are all recorded.

## Model

| member | source | states |
|---|---|---|
| Utf8.Encode | src/main.rs:22 | No contract of its own. `as_bytes` is characterised by EncodeLength, EncodeAppend, DecodeEncode, EncodeDecode and AsciiByteIn. |
| Utf8.EncodeLength | src/main.rs:22 | Each character takes one to four bytes, so the bytes are at least as many as the characters and at most four times as many. |
| Utf8.EncodeChar | src/main.rs:22 | `as_bytes` turns each character into 1 to 4 bytes. An ASCII character gives its own code, and the bytes of any other character are all 0x80 or above. |
| Utf8.EncodeAppend | src/main.rs:16-22 | Encoding the text that `format!` concatenates is concatenating the encodings of its pieces. |
| Utf8.DecodeEncode | src/main.rs:22 | Decoding the bytes written for a string gives the string back, so the header bytes lose nothing of the text. |
| Utf8.EncodeDecode | src/main.rs:22 | Any bytes that decode re-encode to themselves, so one text has only one byte form. |
| Utf8.EncodeInjective | src/main.rs:22 | Two names with the same bytes on the wire are the same name. |
| Utf8.AsciiByteIn | src/main.rs:19-22 | An ASCII byte (quote, line feed, carriage return) occurs in the encoding exactly when its character occurs in the text. |
| Decimal.Render | src/main.rs:21 | `to_string` of a length is a non-empty run of digits with no leading zero, and it starts with `0` only for zero. |
| Decimal.ParseRender | src/main.rs:20-21 | Reading the `Content-Length` digits back as a number gives the length that was rendered. |
| Decimal.RenderValue | src/main.rs:21 | Every canonical digit string renders back to itself, so the rendering is a bijection between lengths and canonical digit strings. |
| Response.HeaderText | src/main.rs:16-21 | No contract of its own. The `format!` text is characterised through Layout, StartsWithStatusLine, EndsWithBlankLine and CarriageReturnOnlyFromName. |
| Response.Header | src/main.rs:16-22 | No contract of its own. The header bytes are characterised by Layout and by the reader's round trip in ParseBuild. |
| Response.Build | src/main.rs:15-23 | The response is longer than the payload by exactly the header, and ends with the payload unchanged. |
| Response.Layout | src/main.rs:16-21 | The header bytes are the fixed lead, the name, the closing quote and `Content-Length: ` label, the digits, and the blank line, in that order. |
| Response.ParseBuild | src/main.rs:16-23 | For a name without a double quote, a reader of the response recovers the name, the announced length and the payload. The announced length equals the payload's length. |
| Response.QuoteInNameIsUnreadable | src/main.rs:19-21 | A double quote in the name is not escaped, so the reader `Parse`, which ends the name at the first double quote, does not recover it. |
| Response.QuoteInNameForgesHeader | src/main.rs:19-23 | Because the quote is not escaped, two different name and payload pairs can give the same bytes: a name holding a closing quote, a `Content-Length` line and the blank line, with a shorter payload, collides with the plain name whose payload starts with that text. |
| Response.ParseBuildExactlyWithoutQuote | src/main.rs:19-23 | The name, length and payload are recovered exactly when the name holds no double quote. |
| Response.StartsWithStatusLine | src/main.rs:17 | The response opens with the bytes of `HTTP/1.1 200 OK` and a line feed. |
| Response.EndsWithBlankLine | src/main.rs:20-23 | The header ends in two line feeds, and the payload follows them directly. |
| Response.CarriageReturnOnlyFromName | src/main.rs:17-20 | The header holds a carriage return exactly when the file name does, so the server's own lines end in a bare line feed. |
| PathName.Split | src/main.rs:44 | `split("/")` always yields at least one piece. |
| PathName.SplitLast | src/main.rs:44-45 | The last piece holds no separator and ends the path. A separator stands right before it unless it is the whole path. |
| PathName.SplitPiecesPlain | src/main.rs:44 | No piece of the split holds the separator. |
| PathName.JoinSplit | src/main.rs:44 | Gluing the pieces back with `/` gives the path. |
| PathName.SplitJoin | src/main.rs:44 | Splitting a glued list of separator-free pieces gives the pieces back. |
| PathName.SplitCount | src/main.rs:44 | A path with `n` separators splits into `n + 1` pieces, empty ones included. |
| PathName.Pop | src/main.rs:45 | `pop` fails only on an empty vector, and otherwise returns the last element and the rest. |
| PathName.FileName | src/main.rs:44-45 | `pop().unwrap()` never panics. The name holds no `/`, is a suffix of the path, and is preceded by `/` unless it is the whole path. |
| PathName.FileNameAfterLastSeparator | src/main.rs:44-45 | The popped name equals an independent scan that keeps what follows the last `/`. |
| PathName.FileNameWithoutSeparator | src/main.rs:44-45 | A path with no `/` is its own name. |
| PathName.FileNameTrailingSeparator | src/main.rs:44-45 | A path ending in `/` gives the empty name. |
| PathName.FileNameWithSeparator | src/main.rs:44-45 | A path with a `/` is a directory part, one `/`, then the name. |
| PathName.FileNameOf | src/main.rs:44-45 | Whatever directory comes before the last `/`, the name is what follows it. |
| AcceptLoop.Step | src/main.rs:48-71 | A pass never brings a stopped, panicked or errored loop back to polling. It serves at most one client, and it only appends whole write, hold, shutdown cycles of the one response. |
| AcceptLoop.Run | src/main.rs:47-73 | No contract of its own. The `for` loop is characterised by RunDecidedByFirstStop, EffectsAreCycles, Absorbing and Serve. |
| AcceptLoop.Cycles | src/main.rs:52-57 | `n` serve cycles are `3n` effects. |
| AcceptLoop.EffectsAreCycles | src/main.rs:49-62 | A run's effects are whole cycles of write, hold, shutdown, one per served client, each finished before the next begins. |
| AcceptLoop.SameResponseToEveryClient | src/main.rs:41-52 | Every write in a run carries the same bytes, because each client gets a clone of one unmutated buffer. |
| AcceptLoop.Absorbing | src/main.rs:59-70 | After a break, a panic or an error return, later events change nothing. |
| AcceptLoop.RunDecidedByFirstStop | src/main.rs:47-73 | The first event that does not continue decides the run. Before it the loop polls, serving one cycle per connection. At it the loop ends stopped, panicked or errored, as that event dictates. |
| AcceptLoop.WouldBlockWhileRunningIsInvisible | src/main.rs:64-69 | A would-block while `running` is true changes nothing wherever it occurs in a trace, so it never ends the loop. |
| AcceptLoop.IdleKeepsPolling | src/main.rs:64-69 | A loop that only sees would-block while running keeps polling and does nothing. |
| AcceptLoop.ServeWhileRunning | src/main.rs:49-62 | A completed serve while running appends one cycle and keeps polling. |
| AcceptLoop.StopsAtBoundary | src/main.rs:59-68 | A false `running` read after a would-block or a completed serve stops the loop, and no later event serves anyone. |
| AcceptLoop.FailurePanics | src/main.rs:70 | An accept error other than would-block panics at once. It serves no one and never leads to a normal stop. |
| AcceptLoop.AtMostOneServeAfterSignal | src/main.rs:38-68 | Once every boundary from some event on reads `running` as false, at most one more client is served, and none while the loop is still polling. |
| AcceptLoop.Serve | src/main.rs:47-73 | The imperative loop computes the same phase, effects and count as the transition function. It consumes events up to and including the one that ends it, and no further. |
| Server.SharedResponse | src/main.rs:44-52 | No contract of its own. The response built from the popped name is characterised by EveryClientGetsThePayload. |
| Server.Session | src/main.rs:41-52 | No contract of its own. The run of `main` over a trace is characterised by EveryClientGetsThePayload, HelloScenario and SignalWhileIdle. |
| Server.EveryClientGetsThePayload | src/main.rs:41-52 | Every client receives the startup payload unchanged, under the name after the path's last separator. When that name has no double quote, whatever the directories hold, a reader recovers exactly that name, the length and the payload. |
| Server.HelloName | src/main.rs:44-45 | The path `/tmp/hello.txt` gives the name `hello.txt`. |
| Server.HelloScenario | src/main.rs:15-24 | Sharing the bytes `hello` as `/tmp/hello.txt` with one client writes a response that reads back as name `hello.txt`, length 5, payload `hello`. |
| Server.SignalWhileIdle | src/main.rs:64-68 | A signal with no client connected ends the loop at the next would-block, with nothing served. |

## Left out

- `handle_file` (src/main.rs:26-32) is file-system I/O, so the payload is a given byte sequence. Its single `read` may return fewer bytes than the metadata size, and the model does not cover that.
- Errors before the loop are not modelled. A missing `args[1]` is an index-out-of-bounds panic (src/main.rs:41). A failed `File::open`, `metadata` or `set_nonblocking` panics through `expect`, and a failed `TcpListener::bind` returns from `main` (src/main.rs:27-30, 42-43). All of these end the process before any client is served.
- `env::args()` panics on an argument that is not valid Unicode (src/main.rs:40). That is why the path can be a Dafny `string`, a sequence of Unicode scalar values: every path that reaches line 44 is one.
- Signal registration through `simple_signal` and the shared `AtomicBool` (src/main.rs:35-39) are represented only by the flag value each event records. The concurrency between handler and loop is not modelled.
- `wait` and `thread::sleep` (src/main.rs:10-13, 55) appear only as a `Hold(1000)` effect at its place in the order. Elapsed time is not modelled.
- All `println!` logging is left out (src/main.rs:46, 51, 53-54, 56, 58, 60, 66). It is a console side effect. `println!` panics when stdout cannot be written, for example when it is a closed pipe or the disk is full. The model assumes every console write succeeds, which is why a served cycle is always whole and a false flag always ends the loop as stopped rather than panicked.
- The results of `stream.write` are ignored by the source (src/main.rs:22-23). The model writes the full response, so partial writes are not modelled.
- The listener's `incoming()` never ends, but a trace is finite. A run whose trace ends while polling is a server still running.
- Lengths are unbounded naturals. The source's `usize` length is always rendered exactly, so no wrap-around arises.
