# SingleInstance in Dafny

A model of the two single-instance classes of the SingleInstance library, with proofs about it.

- `SingleInstanceService` decides, through a named mutex, whether the process is the first instance. The first instance runs a named-pipe server. Later instances send it one message and wait for one reply.
- Messages travel as frames: the UTF-8 bytes of the text, then the end delimiter CR LF (`0x0D 0x0A`). There is no length prefix and no escaping.
- `SingleInstance` is the older class. It fixes ownership when it is constructed. It passes command-line arguments to the first instance one per line, and it follows the .NET dispose pattern with a finalizer.

Modules:

- `Wrappers` (wrappers.dfy): `Option`, `Result` and `Outcome`.
- `Utf8` (utf8.dfy): a concrete UTF-8 encoder over Unicode scalar values, and a total decoder.
  - The decoder replaces each maximal ill-formed subpart by U+FFFD, as in the Unicode Standard, section 3.9, Table 3-7.
  - `Decode(Encode(s)) == s` is proved for every string.
- `Framing` (framing.dfy):
  - `EndDelimiter`, the frame encoding and `HandleResponse`, as a function from the buffer to the message (if any) and the new buffer;
  - `ReadAsync`, a method whose loop consumes a stream given as a sequence of chunks;
  - `OutputPipe`, the writer side of a pipe.
- `Service` (service.dfy): the `SingleInstanceService` class, the listener turn (`ListenStep`), the listener loop (`ListenLoop`) and the reply capability (`SendResponse`).
- `Legacy` (legacy.dfy): the `SingleInstance` class, the line-oriented text written by `StreamWriter.WriteLine`, and the text read back by `StreamReader.ReadLine`.
- `Scenarios` (scenarios.dfy): TestSingleInstance and TestSendMessageToFirstInstanceAsync of UnitTest/UnitTest.cs, replayed against the contracts, and the legacy client's connect timeout. TestDispose and TestCheckIdentifier are not replayed: they exercise the mutex and the identifier checks of the platform.

Things that come from outside the program are parameters of the model:

- `createdNew` (service) and the constructor's `createdNew` (legacy): what creating the named mutex with initial ownership would report.
- `Exchange` (service client): the connect outcome and the reply bytes.
- `Connection` (one listener turn): a fault, or the request stream in chunks.
- `clientGone` (`SendResponse`): whether the client has left before its reply is flushed.
- `ClientPipe` and `ServerSession` (legacy): the pipe outcomes, and how many times the server's end reports itself connected.

Behaviour the code has that a reader might not expect, all reflected in the model:

- A message containing "\r\n" is sent as is. The receiver gets only the text before the first "\r\n", and the rest of the frame stays unread (`FrameTruncated`).
- An empty request is never published. The `continue` at SingleInstanceService.cs:98-101 neither completes the reply output nor disposes the server stream, so nothing in the code ends the client's stream; it ends only when the abandoned server stream is finalized. The client gets "" only then (streams that never end are listed under "Left out").
- `TryStartSingleInstance` asks for the mutex only while `_mutex` is unset. Later calls repeat the first answer even after the mutex handle was disposed.
- `Dispose` of the service disposes the mutex handle; it does not call `ReleaseMutex`. `IsFirstInstance` keeps its value after disposal.
- A listener turn runs as one step with respect to `Dispose`. So the model never offers a value to `Received` after it was completed, and the Rx rule that drops such values needs no modelling.
- A reply written to an output that was already completed fails with `WriterCompleted`. A second reply therefore writes nothing.
- A reply to a client that has gone fails with `BrokenPipe` when `Complete()` flushes it, and the exception reaches the subscriber that answered.
- The legacy class releases the mutex only when it owns it, and only from `Dispose()`, never from the finalizer.
- The legacy client returns false on a broken pipe. On a connect timeout it does not return false: disposing its writer flushes a pipe that never connected, and that raises an `InvalidOperationException` no handler catches (see Findings).
- An argument containing "\r" or "\n" is written as is, and the legacy listener reads it back as several lines (`ReadLineCutsArgument`, `ArgumentSplitInTwo`).

## Model

| member | source | states |
|---|---|---|
| Framing.EncodeFrame | SingleInstance/SingleInstanceService.cs:62-66 | defined as the UTF-8 bytes of the message followed by `EndDelimiter`, the two bytes CR (`0x0D`) and LF (`0x0A`) of line 25 |
| Framing.FrameDelimiterIsLast | SingleInstance/SingleInstanceService.cs:107-111 | the delimiter that closes a frame is the first delimiter in it exactly when the message holds no "\r\n" |
| Framing.FirstDelimiter | SingleInstance/SingleInstanceService.cs:171 | none exactly when the bytes hold no CR LF; otherwise the index of a CR LF with none before it |
| Framing.HandleResponse | SingleInstance/SingleInstanceService.cs:167-178 | no message and the buffer unchanged exactly when there is no delimiter; otherwise the decoded bytes before the first delimiter, with the buffer replaced by exactly the bytes after it |
| Framing.EncodeContainsDelimiter | SingleInstance/SingleInstanceService.cs:62-66 | the UTF-8 bytes of a text contain CR LF if and only if the text contains "\r\n" |
| Framing.FrameRoundTrip | SingleInstance/SingleInstanceService.cs:167-178 | a frame of a message without "\r\n", followed by any bytes, yields that message and leaves exactly the following bytes in the buffer |
| Framing.FrameTruncated | SingleInstance/SingleInstanceService.cs:167-178 | a frame of a message whose first "\r\n" is at k yields only the text before k; the buffer keeps the encoding of the rest, its delimiter and what followed |
| Framing.HandleResponseExtend | SingleInstance/SingleInstanceService.cs:141-155 | once the buffer holds a delimiter, bytes that arrive later change neither the message found nor the remainder before them |
| Framing.ReadAsync | SingleInstance/SingleInstanceService.cs:129-165 | the result is the first frame of the concatenation of all chunks, or "" when the stream completes without a delimiter, whatever the chunk boundaries (a delimiter split across reads included) |
| Framing.ReadFrameOfMessage | SingleInstance/SingleInstanceService.cs:141-145 | reading a stream that starts with the frame of a message without "\r\n" returns that message |
| Framing.OutputPipe.constructor | SingleInstance/SingleInstanceService.cs:57 | a new output has written nothing and is not completed |
| Framing.OutputPipe.WriteFrame | SingleInstance/SingleInstanceService.cs:62-66 | on an output not completed, appends exactly the UTF-8 bytes of the message and then CR LF, and nothing written before changes; a completed output is left as it was |
| Framing.OutputPipe.Complete | SingleInstance/SingleInstanceService.cs:70 | the output is completed and its bytes are unchanged |
| Utf8.Encode | SingleInstance/SingleInstanceService.cs:62 | `GetBytes`, defined as the concatenated encodings of the characters, in order |
| Utf8.EncodeLength | SingleInstance/SingleInstanceService.cs:62 | no fewer bytes than characters, and at most four times as many |
| Utf8.Decode | SingleInstance/SingleInstanceService.cs:177 | `GetString`, defined as the characters decoded one after another from the front |
| Utf8.DecodeLength | SingleInstance/SingleInstanceService.cs:177 | at most one character per byte, and no character exactly for no bytes |
| Utf8.EncodeScalar | SingleInstance/SingleInstanceService.cs:62 | one to four bytes; one byte, equal to the code, exactly for ASCII; no byte of a longer encoding is ASCII |
| Utf8.DecodeFirst | SingleInstance/SingleInstanceService.cs:177 | consumes at least one byte and no more than there are; an ASCII byte decodes to itself |
| Utf8.DecodeFirstEncodeScalar | SingleInstance/SingleInstanceService.cs:177 | decoding the encoding of a character, followed by anything, gives the character and consumes exactly its bytes |
| Utf8.DecodeEncode | SingleInstance/SingleInstanceService.cs:177 | decoding the UTF-8 encoding of any string gives the string back |
| Service.Publishes | SingleInstance/SingleInstanceService.cs:96-119 | defined as what one turn publishes: nothing on a fault or an empty request, otherwise the request's message (its properties are those of `PublishedNonEmpty` and `PublishedFrames`) |
| Service.SendResponse | SingleInstance/SingleInstanceService.cs:103-117 | the reply output ends completed; on an output already completed nothing is written and it fails with `WriterCompleted`; otherwise the frame of the reply is appended, and the call passes, or fails with `BrokenPipe` when the client has gone and the flush of `Complete()` at line 115 finds no reader |
| Service.PublishedNonEmpty | SingleInstance/SingleInstanceService.cs:98-101 | no message the listener publishes is empty |
| Service.PublishedFrames | SingleInstance/SingleInstanceService.cs:87-124 | when each client sends the frame of a non-empty message without "\r\n", in any chunking, exactly those messages are published, in accept order |
| Service.SingleInstanceService.constructor | SingleInstance/SingleInstanceService.cs:30-34 | a new service has no mutex, is not the first instance, has no server, has published nothing and is not disposed |
| Service.SingleInstanceService.IsFirstInstance | SingleInstance/SingleInstanceService.cs:16 | an instance that is first has created the mutex, and holds it undisposed until it is itself disposed |
| Service.SingleInstanceService.CheckDispose | SingleInstance/SingleInstanceService.cs:209-212 | fails, with the disposed message, if and only if the service is disposed |
| Service.SingleInstanceService.TryStartSingleInstance | SingleInstance/SingleInstanceService.cs:36-46 | fails with the disposed message after disposal, changing nothing; the first call takes ownership from the mutex's report and disposes a mutex it does not own; later calls change nothing; the result is the ownership |
| Service.SingleInstanceService.SendMessageToFirstInstance | SingleInstance/SingleInstanceService.cs:48-74 | refused after disposal and on the first instance, sending nothing; a connect timeout sends nothing; otherwise the frame of the message is sent, and the result is a broken-pipe failure or the first frame of the reply stream |
| Service.SingleInstanceService.StartListenServer | SingleInstance/SingleInstanceService.cs:76-83 | the guards in source order (disposed, not the first instance, already started); the server is set exactly when the call passes, so a second call fails |
| Service.SingleInstanceService.ListenStep | SingleInstance/SingleInstanceService.cs:87-124 | stops once cancelled; otherwise a fault or an empty request publishes nothing, and a non-empty request is appended once, with a fresh, empty reply output; earlier entries never change |
| Service.SingleInstanceService.ListenLoop | SingleInstance/SingleInstanceService.cs:85-126 | over any run of turns, the published messages grow by exactly what the turns publish, in order, and faults never stop the loop; nothing is published once cancelled |
| Service.SingleInstanceService.Dispose | SingleInstance/SingleInstanceService.cs:216-229 | afterwards the service is disposed, cancelled and `Received` completed; the first call disposes a created mutex; later calls leave the mutex as it was |
| Legacy.SingleInstance.constructor | SingleInstance/SingleInstance.cs:23-27 | ownership is the mutex's report and never changes afterwards; the mutex is present, never released, and the object is not disposed |
| Legacy.SingleInstance.IsFirstInstance | SingleInstance/SingleInstance.cs:32 | an instance that does not own the mutex never releases it |
| Legacy.SingleInstance.PassArgumentsAsWritten | SingleInstance/SingleInstance.cs:39-70 | refused on the first instance; a connect timeout ends in the escaping `InvalidOperationException` of the writer's flush, with nothing sent; otherwise true exactly when every write succeeds, false on a broken pipe; the text sent is the arguments one per line, in order, up to the break |
| Legacy.SingleInstance.PassArgumentsToFirstInstance | SingleInstance/SingleInstance.cs:39-70 | the documented behaviour: refused on the first instance; otherwise true exactly when connecting and every write succeed, false on a timeout or a broken pipe; the text sent is the arguments one per line, in order, up to the break |
| Legacy.Lines | SingleInstance/SingleInstance.cs:53-56 | the text written for the arguments: each one followed by "\r\n"; at least two characters per argument, and empty exactly for no arguments |
| Legacy.ReadLinesOfLines | SingleInstance/SingleInstance.cs:53-56 | arguments without line breaks, written one per line, are read back one per `ReadLine` in the same order, and the next read finds the end |
| Legacy.ReadLine | SingleInstance/SingleInstance.cs:101 | no line exactly at the end of the text; otherwise the line is a prefix of the text without line breaks, and some text is consumed |
| Legacy.ReadLineTerminator | SingleInstance/SingleInstance.cs:101 | the line is followed by the end of the text, by "\r\n", by "\n" or by a "\r" not followed by "\n", and the rest is exactly what follows that terminator |
| Legacy.ReadLineCutsArgument | SingleInstance/SingleInstance.cs:53-56 | an argument holding a line break is read back only up to its first one |
| Legacy.ArgumentSplitInTwo | SingleInstance/SingleInstance.cs:53-56 | the single argument "a\nb" arrives as the two lines "a" and "b" |
| Legacy.ReadArguments | SingleInstance/SingleInstance.cs:98-102 | the lines collected are those of as many successive `ReadLine` calls as the pipe stays connected |
| Legacy.SingleInstance.ListenForArgumentsFromSuccessiveInstances | SingleInstance/SingleInstance.cs:75-83 | refused unless this is the first instance; a listener is queued exactly when it passes |
| Legacy.SingleInstance.ListenForArguments | SingleInstance/SingleInstance.cs:90-114 | a broken pipe publishes nothing; otherwise the lines read are published once, as one array, unless the stream was completed |
| Legacy.SingleInstance.DisposeCore | SingleInstance/SingleInstance.cs:128-151 | later calls change nothing; the first call marks the object disposed and, when disposing, releases the mutex once if it is present and owned, clears it, and completes the arguments stream |
| Legacy.SingleInstance.Dispose | SingleInstance/SingleInstance.cs:158-162 | disposes with `disposing` set; the mutex is released at most once, and it is gone exactly when it was released |
| Legacy.SingleInstance.Finalize | SingleInstance/SingleInstance.cs:153-156 | marks the object disposed without releasing the mutex or completing the stream |
| Scenarios.TwoInstances | UnitTest/UnitTest.cs:18-30 | the first service to create the mutex owns it, the second does not; a disposed service refuses to start |
| Scenarios.ListenGuards | UnitTest/UnitTest.cs:61-70 | the first instance starts listening once; a second start and a start by the other instance are refused |
| Scenarios.ServeRequest | UnitTest/UnitTest.cs:72-87 | a request split across two reads is published once, and the reply output carries exactly the frame of the answer |
| Scenarios.ReplyToDepartedClient | SingleInstance/SingleInstanceService.cs:103-117 | an answer to a client that has gone is written to the output, and the reply fails with `BrokenPipe` |
| Scenarios.RequestAndReply | UnitTest/UnitTest.cs:74-76 | the client sends the frame of its question and receives the first instance's answer |
| Scenarios.LegacyConnectTimeout | SingleInstance/SingleInstance.cs:48-62 | for one connect timeout, the code as written fails with the flush's `InvalidOperationException` where the documented result is false |

## Left out

- Framing.ReadAsync, Service.SingleInstanceService.ListenStep, Service.SingleInstanceService.ListenLoop and Service.SingleInstanceService.SendMessageToFirstInstance: only streams that end are modelled. A peer that connects and then neither sends CR LF nor completes keeps `ReadAsync` waiting, since the reads have no timeout. On the listener this blocks every later client until disposal; on the client, with the default token, it waits forever for a reply. Neither case, nor the listener's progress, is represented.
- `CheckIdentifierValid` (SingleInstanceService.cs:180-205): `Requires.NotNull` at line 182 throws `ArgumentNullException` for a null identifier, which cannot arise because a Dafny string is never null; the rest only lets the platform's mutex and pipe constructors throw. The identifier is accepted as given.
- Named mutex semantics and cross-process exclusivity: only the ownership report is consumed, as a parameter.
- The named pipe transport (connect with the 200 ms timeout, `WaitForConnectionAsync`, `AsDuplexPipe`, `StreamReader`/`StreamWriter`, `IsConnected`, the flush of a reply): its outcomes are parameters.
- Async execution, threads, `volatile` fields, and the cancellation token inside `ReadAsync` and the pipe calls. Cancellation is the `cancelled` flag checked at the head of each listener turn; a cancellation surfacing inside a turn is a `Faulted` turn.
- The concurrency between the listener and its subscribers: a published request is answered through `SendResponse` at any later point.
- Rx `Subject` internals: `Received` and `ArgumentsReceived` are append-only sequences with a completed flag.
- Lone UTF-16 surrogates: a Dafny `char` is a Unicode scalar value, so .NET strings holding unpaired surrogates are not represented.
- `GetSpan`/`Advance` sizing and the `AdvanceTo` examined position: only the bytes appended and the bytes kept matter.
- Legacy.ListenForArguments: the recursive re-listen in `finally` and the `ThreadPool` hand-off are not modelled; each call serves one connection for a queued listener and publishes directly.
- `ReleaseMutex` thread affinity and the `AbandonedMutexException` family: a release is counted and always succeeds.
- Exceptions other than those modelled. The model represents the disposed and operation guards; the service client's `ConnectTimeout` and `BrokenPipe`, and the reply's `WriterCompleted` and `BrokenPipe`, all of which escape to the caller; the exception of the legacy writer's flush that escapes both handlers; and the faults the listeners and the legacy client catch. Out-of-memory, argument validation inside the platform, and exceptions raised by subscribers are not represented.
- Legacy.SingleInstance.PassArgumentsToFirstInstance and Legacy.SingleInstance.PassArgumentsAsWritten: the writer is modelled at text level (encoding and buffering left out). A break is attributed to one argument's write or, past the last one, to the final flush.
- `Environment.NewLine` is fixed to "\r\n", the Windows value.
- `ISingleInstanceService` is an interface only; it is not part of this model.

## Findings

| source | as written | input that shows it | evidently intended | confidence | as-written member | corrected member |
|---|---|---|---|---|---|---|
| SingleInstance/SingleInstance.cs:48-67 | after `client.Connect(200)` times out, disposing the `using` `StreamWriter` flushes the unconnected `NamedPipeClientStream`, which throws `InvalidOperationException`; it replaces the `TimeoutException` and escapes both handlers | a successive instance whose first instance is not listening (connect times out), any arguments | return false, as the method's documentation and the timeout handler say | not executed; from the documented behaviour of `StreamWriter.Dispose` and `PipeStream.Flush` | Legacy.SingleInstance.PassArgumentsAsWritten, shown by Scenarios.LegacyConnectTimeout | Legacy.SingleInstance.PassArgumentsToFirstInstance |
