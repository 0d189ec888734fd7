# hakusai_rpc core, modelled in Dafny

This project models four pieces of sequential decision logic in the
hakusai_rpc Go RPC framework. Each is written as pure functions over
immutable data:

- **Discovery registry** (`rpc-go/registry/registry.go`). The registry maps an address to the time of its last heartbeat. `putServer` inserts an address or refreshes it. `aliveServers` lazily evicts expired entries and returns the survivors sorted. `ServeHTTP` dispatches GET / POST / other to 200, 500 or 405. `Heartbeat` works out its default period, and its background ticker panics on a negative one. Time is an integer `now`, in nanoseconds as Go's `time.Duration` counts.
- **Method registration** (`day3-service/service.go`). Types are small descriptors (name, package path, kind with element types) instead of reflection. `registerMethods` is a filter over the method sequence. `newService` fails on a nil receiver and on an unexported type name. `newArgv`/`newReplyv` follow the pointer/map/slice construction rules. `call` bumps a wrapping 64-bit counter and passes the method's error through.
- **Server handshake and serve loop** (`day1-codec/server.go`, `day1-codec/codec/codec.go`). The handshake checks the option, the magic number `0x3bef5c` and the codec tag against the constructor table. The table holds only `application/gob`. The serve loop runs over a sequence of read outcomes. It stops at the first header failure. A body failure is only logged. Every request read is answered once, with its own header and the body `geerpc resp <Seq>`. The codec is closed after the last answer. Handlers run concurrently in Go. The model emits their answers in read order, and `LegalSchedule` admits every other order of the writes.
- **Gob codec write discipline** (`day1-codec/codec/gob.go`). `Write` is a small state machine over abstract encode outcomes. It encodes the header, then the body only if the header worked, always flushes, and closes on error. The flush's own outcome is abstract as well: it may fail part-way, its error is dropped, and the buffered writer keeps that error and refuses every later write with it.

Modules: `Wrappers` (Option/Result), `Strings` (code-point string order, which on valid UTF-8 is Go's byte order; sorting, `%d` rendering, `strings.Join`/`strings.Split`), `Codec`, `GobCodec`, `Server`, `Service`, `Registry`.

Two behaviours of the code that its own structure suggests were not intended; the model follows the code:

- **Body decode failure.** The serve loop has a branch that sends an error response for a request that comes with an error (`day1-codec/server.go:90-93`), so a bad body was evidently meant to get one. But `readRequest` logs the failure and returns the request with a nil error (`day1-codec/server.go:129-133`). The request is therefore answered normally, with the usual reply text and an empty `Error` field. That branch can never run. `Server.ReadRequest` proves it never produces that shape. `Server.ServeLoop` still models the branch.
- **Half-written frames.** `Write` closes the connection after a failed encode (`day1-codec/codec/gob.go:49-51`), so that the peer does not go on reading a broken stream. Yet the deferred flush runs first (`day1-codec/codec/gob.go:48`): when the body encode fails, the already-encoded header is still delivered. `GobCodec.WriteDelivers` states this. The flush's error is discarded, so a flush that fails part-way returns no error, keeps the connection open, and may leave the header alone on the wire; `GobCodec.FlushFailureUnreported` states this, and `GobCodec.NextWriteAfterFlushFailure` shows the error surfacing only at the next `Write`.

## Model

| member | source | states |
|---|---|---|
| Registry.New | rpc-go/registry/registry.go:31-37 | A new registry has the given timeout, no entries, and every entry filed under its own address |
| Registry.PutServer | rpc-go/registry/registry.go:42-54 | The key set gains exactly the address; its start becomes `now`; a new entry carries the address, a known one keeps its item; every other entry is unchanged; well-formedness is kept |
| Registry.AliveServers | rpc-go/registry/registry.go:57-70 | An entry survives iff the timeout is 0 or start + timeout > now; survivors keep their items, the rest are deleted; the list is ascending, duplicate-free and holds exactly the remaining keys; timeout 0 changes nothing |
| Registry.AliveServersIdempotent | rpc-go/registry/registry.go:57-70 | A second call at the same instant returns the same list and leaves the map as the first call left it |
| Registry.EvictionMonotone | rpc-go/registry/registry.go:62 | An address listed at a later time is also listed at any earlier time |
| Registry.AliveServersLoop | rpc-go/registry/registry.go:60-69 | The range-with-delete loop, visiting entries in any order, followed by sorting, gives exactly the result of `AliveServers` |
| Registry.ServeHTTP | rpc-go/registry/registry.go:74-92 | GET answers 200 with the comma-join (`Strings.Join`) of the alive list and evicts; POST with an empty address answers 500 and changes nothing; POST with an address answers 200 and acts as `PutServer`; any other method answers 405 and changes nothing |
| Registry.PostThenGet | rpc-go/registry/registry.go:74-87 | A POST of an address to an empty registry followed by an immediate GET lists exactly that address |
| Registry.ExpiredListsNothing | rpc-go/registry/registry.go:61-78 | When every heartbeat is older than a positive timeout, GET lists nothing and empties the map |
| Registry.ListRoundTrip | rpc-go/registry/registry.go:78 | Splitting the GET header (a `Strings.Join` on commas) returns the alive list, when no address contains a comma and the list is non-empty |
| Registry.HeartbeatPeriod | rpc-go/registry/registry.go:106-110 | A zero duration defaults to 4 minutes, which is positive and below the 5-minute default timeout; any other duration is kept |
| Registry.HeartbeatsSent | rpc-go/registry/registry.go:111-119 | With a positive period (see `Registry.Heartbeat`), the first heartbeat is always sent; sending continues while sends succeed and stops right after the first failure |
| Registry.Heartbeat | rpc-go/registry/registry.go:105-119 | The ticker is created whatever the first send returned, and panics exactly when the period is not positive, that is when the duration is negative; then only the first heartbeat is sent; otherwise sending goes on until the first failure |
| Registry.NegativePeriodSendsOnce | rpc-go/registry/registry.go:112-114 | With a negative duration a server heartbeats once, even when every send would succeed |
| Registry.DefaultHeartbeatKeepsAlive | rpc-go/registry/registry.go:104-110 | An entry refreshed within one default heartbeat period is still alive in the default registry (`DefaultGeeRegister`, 5-minute timeout) |
| Strings.SortSet | rpc-go/registry/registry.go:68 | The listing of a set is ascending, duplicate-free, and holds exactly the set's elements |
| Strings.SortStrings | rpc-go/registry/registry.go:68 | Sorting yields an ascending permutation of its input |
| Strings.StrictlySortedUnique | rpc-go/registry/registry.go:68 | Two ascending, duplicate-free sequences with the same elements are equal, so the sorted list does not depend on map iteration order |
| Strings.SplitJoin | rpc-go/registry/registry.go:78 | Splitting a join on the separator recovers the pieces when none contains the separator |
| Service.RegisterMethods | day3-service/service.go:82-104 | The table's keys are exactly the names of methods with three inputs and one output, an `error` result, and exported-or-built-in argument and reply types; each such method (the last of its name) maps to its own argument and reply types with a zero counter |
| Service.RegisteredIffEligible | day3-service/service.go:84-101 | In a method set with distinct names, a method is registered iff it passes all three filters, and then with its own argument and reply types |
| Service.PointerToUnexportedAccepted | day3-service/service.go:116-118 | Visibility (`Service.IsExportedOrBuiltinType`) is judged on the type itself: an unexported named type is rejected, but a pointer to it has no name and no package and is accepted, so a method taking such a pointer is registered |
| Service.WrongArityIsSkipped | day3-service/service.go:87-89 | A method without exactly three inputs and one output is skipped rather than causing a failure |
| Service.NewService | day3-service/service.go:70-80 | Fails iff the receiver is a nil pointer or nil interface (reflection panics) or the type name after one pointer indirection is not exported (`Service.IsExported`); otherwise the service keeps the receiver, carries that name, and its table is exactly the `Service.RegisterMethods` table of the receiver's methods |
| Service.NilReceiverRejected | day3-service/service.go:72-73 | A nil pointer to an exported type is refused, while a non-nil one is accepted under the pointed-to type's name |
| Service.NewArgv | day3-service/service.go:34-43 | For a pointer argument type, a fresh non-nil pointer to the zero value of the element type; otherwise the zero value of the argument type |
| Service.NewReplyv | day3-service/service.go:45-55 | A fresh pointer to a value of the reply type's element type: a non-nil empty collection for a map or slice element, the zero value otherwise; no value when the reply type has no element type |
| Service.ReplyFitsPointerReply | day3-service/service.go:45-47 | For a pointer reply type, the reply value has exactly the reply type |
| Service.Call | day3-service/service.go:106-114 | The method's counter, as `Service.NumCalls` reads it, goes up by one (mod 2^64), nothing else in the service changes, and the result is the method's own error (none for nil) |
| Service.CallsCounted | day3-service/service.go:107 | After k calls the counter read by `Service.NumCalls` (`day3-service/service.go:28-30`) has advanced by k (mod 2^64) and no other method's entry has changed |
| Codec.InitCodecFuncMap | day1-codec/codec/codec.go:36-39 | After initialisation the constructor table maps the gob tag to the gob constructor, has no JSON entry, and has no other key |
| Codec.LookupCodec | day1-codec/codec/codec.go:28-39 | A tag has a constructor iff it is `application/gob`, and that constructor is the gob codec's |
| GobCodec.NewGob | day1-codec/codec/gob.go:27-35 | A new codec has an empty buffer, nothing written, an open connection and no recorded write error |
| GobCodec.Flush | day1-codec/codec/gob.go:48 | Flushing only moves pieces from buffer to connection, never losing or repeating one; a writer with a recorded error does nothing, a closed connection receives nothing; the writer ends without an error iff it had none and the buffer was empty or fully written, and then the buffer is empty |
| GobCodec.Write | day1-codec/codec/gob.go:46-62 | The header is encoded first; the body is encoded, right after it, iff the header encode succeeded; the buffer is flushed once on every path and before any close; the error is the first encode error, a recorded write error taking the place of the header's, while the flush's own error is dropped; the connection is closed iff there is an error; what was delivered stays delivered |
| GobCodec.WriteDelivers | day1-codec/codec/gob.go:46-62 | On an open connection with nothing pending and a flush that succeeds, success delivers header then body and leaves the codec ready; a header failure delivers nothing and closes; a body failure delivers the header alone and closes |
| GobCodec.FlushFailureUnreported | day1-codec/codec/gob.go:47-61 | When both encodes succeed but the flush fails, `Write` reports no error and leaves the connection open, yet the frame is lost (nothing sent) or cut after its header (one piece sent), and the error is recorded |
| GobCodec.NextWriteAfterFlushFailure | day1-codec/codec/gob.go:46-53 | The write after an unreported flush failure fails with that flush's error, delivers nothing, and closes |
| GobCodec.FailedWriteIsFinal | day1-codec/codec/gob.go:47-51 | After a failed write the connection is closed, and a later write delivers nothing more |
| GobCodec.WriteAll | day1-codec/codec/gob.go:46-62 | A run of writes whose encodes and flushes succeed delivers each frame whole and in order, header before body, and keeps the codec ready |
| GobCodec.Close | day1-codec/codec/gob.go:64-66 | Closing closes the connection, returns the connection's close error, and leaves buffer, written data and recorded error alone |
| Server.Handshake | day1-codec/server.go:45-66 | The connection is accepted iff the option decodes, its magic number is 0x3bef5c and its codec tag has a constructor, and then with that constructor; a decode failure or a bad magic number is reported as such |
| Server.DefaultOptionAccepted | day1-codec/server.go:20-30 | The default option carries 0x3bef5c and the gob tag, and passes the handshake with the gob codec |
| Server.JsonCodecRejected | day1-codec/server.go:61-65 | An option asking for the JSON codec is rejected, whatever its magic number |
| Server.ServeConn | day1-codec/server.go:45-67 | A failed handshake closes the connection without serving anything; a successful one serves the stream |
| Server.ReadRequestHeader | day1-codec/server.go:110-119 | A header read yields the header, or an error iff the read failed |
| Server.ReadRequest | day1-codec/server.go:121-134 | No request and an error iff the header read fails; a body failure still yields the request with no error; a request never comes together with an error |
| Server.ReplyText | day1-codec/server.go:149 | The reply text names the request's sequence number: a client reading the prefix and the digits recovers it; the digits have no leading zero |
| Server.ReplyTextInjective | day1-codec/server.go:149 | Different sequence numbers never get the same reply text |
| Server.HandleRequest | day1-codec/server.go:144-151 | A request is answered with its own header and a body naming its sequence number |
| Server.ServeLoop | day1-codec/server.go:82-99 | The loop answers every read result before the first fatal one, each exactly once and in place, and nothing after it |
| Server.ServeCodec | day1-codec/server.go:75-102 | Exactly one answer per request read before the first header failure, carrying that request's header and the reply text for its sequence number, then one close and nothing after it |
| Server.BodyFailureStillAnswered | day1-codec/server.go:129-133 | A request whose body fails to decode gets the normal reply and the loop continues past it |
| Server.StopsAtHeaderFailure | day1-codec/server.go:84-89 | Nothing after a header failure affects what the server writes |
| Server.Answers | day1-codec/server.go:95-101 | The answers owed are one per frame before the first header failure, in read order, each with the frame's own header and a body naming its sequence number |
| Server.ScheduleAnswersEach | day1-codec/server.go:95-101 | In every order the concurrent handlers may write in, the responses written are exactly the answers owed, each as often as owed |
| Server.ScheduleCorrelation | day1-codec/server.go:136-151 | In every order the concurrent handlers may write in, each response body names its own header's sequence number |
| Strings.DecimalRoundTrip | day1-codec/server.go:149 | Reading back the decimal rendering of a number gives the number |

## Left out

- Byte encodings (`encoding/gob`, `encoding/json`, `bufio`) are abstract. Option decoding is a `Result`. Each header/body read is a read outcome. Each encode is `Encoded` or `EncodeError`, and each flush `Flushed` or `FlushFailed` after some whole pieces. A failed encode adds nothing to the buffer, and the buffer has no size limit that would flush it early. A write cut in the middle of a piece is counted as not having sent that piece.
- Goroutines, `sync.Mutex`, `sync.WaitGroup` and atomics are left out. Dispatch is sequential. Responses are emitted in read order, and `Server.LegalSchedule` admits any reordering. The call counter is a plain wrapping integer.
- Logging is left out: it is a side effect only. `log.Fatalf` in `newService`, and the reflection panic on a nil receiver, are `Failure` results.
- `Accept`, `net.Listener`, `http.Handle`, `HandleHTTP` and `sendHeartbeat`'s HTTP client are socket and HTTP I/O. Of `Heartbeat`, the default period, the stop-after-first-failure rule and the ticker's panic are modelled; the ticker's timing is not.
- `sendResponse` in the server is modelled as emitting one write event; the effect of a failed write on the gob codec is modelled in `GobCodec` separately. The server's own `conn.Close` deferred in `ServeConn` is implicit: every connection ends closed.
- `reflect.Method.Func.Call` is replaced by the method's returned error, passed to `Service.Call` as a parameter. The argument and reply values are not passed to it.
- The demo programs `day1-codec/main/main.go` and `day2-client/main/main.go` only do network I/O and sleeps; they are not part of this model.
- Service.NewService: recognises only ASCII upper-case initials as exported. Go's `unicode.IsUpper` also accepts other upper-case letters.
- Service.RegisterMethods: the same ASCII-only notion of an exported name applies to argument and reply types.
- Registry.AliveServers: uses one `now` for the whole sweep. The code reads the clock once per entry.
- Registry.AliveServers: time arithmetic is unbounded. Go's `Time.Add` has no overflow for realistic values, which is the only range this models.
- Server.ServeConn: the option is read by a JSON decoder that may read ahead of the option (`day1-codec/server.go:51`), while the codec reads the raw connection (`day1-codec/server.go:66`). Bytes the JSON decoder buffered are lost to the codec. The model treats the option and the request stream as independent inputs, so it does not capture that loss.
- Strings.LessEq: compares code points. Go compares bytes; the two agree on valid UTF-8, and an address that is not valid UTF-8 cannot be written as a Dafny string, so the order of such addresses is not modelled.
- Registry.ServeHTTP: an absent `X-HakusaiRpc-Server` header and an empty one are the same input, as `Header.Get` makes them.
