# matlab-zmq: a verified model

This project models the parts of the MATLAB binding for ZeroMQ that hold state, loops and arithmetic, and proves what they promise.

- `Native.dfy` - the environment: frames, messages, the lock-step state machine shared by REQ and REP sockets (sections "The REQ Socket Type" and "The REP Socket Type" of ZeroMQ RFC 28/REQREP), truncation to the receive buffer, RCVMORE. A socket value keeps the log of every message delivered to it and sent by it. Which first frames libzmq accepts is an arbitrary input (`fate`).
- `Framing.dfy` - how `CommandSocket.sendObject`/`receiveObject`, and the variant in `examples/serialization_helper.m`, turn a text and an object into one or two frames and back.
- `Service.dfy` - one pass of the `processRequests` loop (dispatch, callbacks, catch block, error response), whole runs of it, and, defined without any socket, the one answer each request deserves. The main results: every run keeps replies <= requests <= replies + 1 whatever fails; every reply sent is the deserved one or, where libzmq has refused a send, the error answer to that; a long enough run ends with every request answered exactly once, or was stopped by the code of the frames it read last, or was left because OnError did more than report.
- `Network.dfy` - one server, any number of clients, all interleavings: token conservation, the k-th `sendCommand` gets the answer to the k-th request, no deadlock, frame alignment, every command end to end.
- `CommandSocket.dfy` - the `CommandSocket` class itself, its methods proved against the functions of `Service.dfy`, and what its default handlers mean for a whole run: a server as constructed stops only when a client says quit.
- `Transport.dfy` - `send_multipart`, `recv_multipart`, `send_string`, `recv_string`: round trips with the exact loss.
- `Benchmark.dfy` - the chunker, the sender, the receiver and the echo server of `ZeroMQBenchmark.m`, and whole exchanges between two sockets.
- `Lifecycle.dfy` - `zmq.Socket` and `zmq.Context` objects over a libzmq whose calls may all fail: endpoint tracking, `close`, `term`, revival, and every program built from them.
- `Options.dfy` - option names normalized once and twice, the flag masks, and when `recv` and `recv_multipart` make the same native call.
- `Conversions.dfy` - the transposing copies of `conversions.c`.

## Reading the model

- An exception is a value (`None`, `Thrown`, `false`); a receive that would block for ever returns `Waiting`/`Blocked`, which is where a run ends. A blocking receive with a timeout finds nothing and returns.
- User code (handlers, `OnMessage`, `OnCommand`, `OnError`) is an arbitrary finite list of actions: reply, throw, set `Running` to false. It may depend on the data received and on a number that is different in each dispatch, so it may depend on time and history. It does not receive from, send raw frames on, or close the server's socket. `OnError` may do all of this too. Its number is that of the dispatch before it, so it does the same about two errors with one message about one request. Only `Service.EveryRequestAnswered` and `Network.SendCommandCompletes` ask that OnError merely report and that no frames still to be read lead to code that stops the loop; `Service.LongRunEnds` says what happens without that, and `CommandSockets.FreshServerRuns` shows that it holds of a server as constructed when nobody says quit.
- Once libzmq has accepted the first frame of a message it accepts the rest.
- Serializing is a pair of arbitrary functions where deserializing inverts serializing and no stream is empty (`Framing.Codec.Valid`); either may fail. Where it is needed, the error struct is assumed serializable (`Config.ErrorsEncodable`).
- On a client, user code (response handlers, `OnResponse`) runs after the reply has been read and does not touch the socket: there `sendResponse` throws. What the network model records as the result of a `sendCommand` is the reply read; the caller gets it unless that user code throws.
- MATLAB handles are the classes of the model. A wrapper whose native socket could not be created keeps the pointer `[]` (`Socket.unset`); its first endpoint call has no defined meaning (`src/util/conversions.c:267-268` dereferences the data of an empty array), and a program ends there.

Where the repository disagrees with itself the model follows the code:

- `examples/README.md:115-127` shows a handler that calls `socket.sendObject`, which is private (`lib/+zmq/CommandSocket.m:340-341`); handlers reply through `sendResponse`.
- `lib/+zmq/CommandSocket.m:370-373` means to send an empty message, but `uint8('')` has no row and is rejected by `src/core/send.c:56-59`, so sending an empty object with an empty text throws. The later test for an empty payload (`src/core/send.c:67-70`) looks at the out-parameter and never fires, so a 1-by-0 frame is sent.
- `recv_multipart` returns a cell of parts (`lib/+zmq/Socket.m:223-239`), while `tests/test_socket_send_recv_multipart.m:23-27` treats it as one array.
- `normalize_const_name` is meant to be idempotent and is not: `Options.NotIdempotent` names an input, `Options.NormalizeTwice` says exactly when it is.

## Model

| member | source | states |
|---|---|---|
| Native.SendWhole | lib/+zmq/Socket.m:326-339 | sending the frames of a message one by one until one is refused is all or nothing: the whole message leaves and the turn passes, or nothing was queued |
| Framing.TextRoundTrip | lib/+zmq/CommandSocket.m:360-385 | a command text survives uint8, truncation and char exactly when it fits the buffer and has no code above 255 |
| Framing.WireFormat | lib/+zmq/CommandSocket.m:353-370 | the frames themselves: the text first, one byte a character, then the byte stream of a nonempty object, only one of them when the other is empty |
| Framing.FramingRoundTrip | lib/+zmq/CommandSocket.m:341-409 | what receive-after-send returns in each of the four cases of empty and nonempty text and object; it is the original pair exactly for a nonempty text with an object that is nonempty or []; empty with empty cannot be sent |
| Framing.HelperRoundTrip | examples/serialization_helper.m:23-92 | the helper's framing returns every object with every text, empty ones included |
| Service.SafePass | lib/+zmq/CommandSocket.m:274-299 | any handlers, any callbacks, requests of any number of frames, any refused sends: one pass keeps replies <= requests <= replies + 1, leaves no half-sent reply, and routes every reply to its requester |
| Service.PassAnswers | lib/+zmq/CommandSocket.m:304-335 | OnMessage, OnCommand and the handler for the command, or else the "Unknown command" response with the registered names, run in this order, and their first action other than setting Running decides: the reply sent is exactly that one, or the exception thrown that one; with none, nothing is sent |
| Service.RunFirst | lib/+zmq/CommandSocket.m:314-335 | user code that owes a reply, action by action: what is sent or thrown, whether the rest is run, and what becomes of Running |
| Service.LowerFolds | lib/+zmq/CommandSocket.m:178 | two command names are the same key exactly when they agree up to letter case |
| Service.DefaultReplies | lib/+zmq/CommandSocket.m:434-488 | the literal reply of a server with the default handlers to echo, print, gettime, quit and any other command, for empty and nonempty objects; only quit clears Running |
| Service.ClockAdvances | lib/+zmq/CommandSocket.m:383-396 | the number given to user code grows with every receive, by the frames it reads |
| Service.RunOwing | lib/+zmq/CommandSocket.m:304-336 | of user code run while a reply is owed only the first reply tried, or the exception before it, has an effect, whether or not libzmq accepts that reply: a second reply throws without being sent |
| Service.RunIdle | lib/+zmq/CommandSocket.m:304-336 | user code run out of turn, as after the first two frames of a longer request, changes nothing on the socket |
| Service.RecoverOwing | lib/+zmq/CommandSocket.m:281-298 | the catch block entered with a reply owed makes one attempt at the error answer, sent exactly if libzmq accepts it, or none if OnError throws before replying, which leaves the loop |
| Service.CatchCallsOnError | lib/+zmq/CommandSocket.m:281-298 | given the exception, the first action of OnError decides what a pass does: a reply of OnError is the answer sent, an exception of OnError leaves processRequests with nothing sent, and if OnError does nothing the error struct with that message is sent, if libzmq accepts; once a reply has been sent none follows |
| Service.RecoverIdle | lib/+zmq/CommandSocket.m:281-298 | the catch block entered after the reply was sent sends nothing |
| Service.ReceiveReads | lib/+zmq/CommandSocket.m:383-408 | a receive takes the next one or two frames of the message at hand, cut to the buffer, and the turn passes exactly when none is left |
| Service.ReceiveUnit | lib/+zmq/CommandSocket.m:383-408 | the receive that completes a request has read exactly the last one or two frames, those the deserved answer is about |
| Service.WholeMessages | lib/+zmq/CommandSocket.m:383-408 | with requests of at most two frames every receive starts at a message boundary and takes one whole message |
| Service.OneReplyPerRequest | lib/+zmq/CommandSocket.m:274-336 | a handler that replies, throws, replies then throws or replies twice yields exactly one complete reply in that pass if libzmq accepts it, and after a refusal one attempt at an error answer; a silent one yields none; while a reply stays owed the next pass reads no further request and makes one attempt at the error answer |
| Service.HonestPass | lib/+zmq/CommandSocket.m:274-336 | every pass, whatever libzmq refuses, keeps: the i-th reply sent is the deserved answer to the i-th request, a function of the requests alone, or the error answer to a refused send |
| Service.FaithfulPass | lib/+zmq/CommandSocket.m:274-336 | and while libzmq refuses nothing, it is exactly the deserved answer |
| Service.LoopIsSafe | lib/+zmq/CommandSocket.m:246-302 | these invariants hold over whole runs however they end, and a run left waiting for a request has answered all there were |
| Service.LongRunEnds | lib/+zmq/CommandSocket.m:246-302 | total correctness with no hypothesis on user code or refusals: a long enough run ends waiting with every request answered, or stopped by the code of the frames it read last (or by OnError), or left because OnError replied or threw |
| Service.EveryRequestAnswered | lib/+zmq/CommandSocket.m:246-302 | if no frames the log still holds lead to code that stops the loop and OnError only reports, a long enough run sends to each request, in order and to its requester, exactly one reply, whatever libzmq refuses on the way; each is the deserved one or the error answer to a refusal, and the deserved one if libzmq refuses nothing |
| Service.UnansweredBecause | lib/+zmq/CommandSocket.m:246-302 | a run leaves at most the last request it read unanswered, and only if its user code was silent and the loop ended before the next pass, or OnError threw, or libzmq refused a send during the run |
| Service.QuitStops | lib/+zmq/CommandSocket.m:478-488 | the quit command in any letter case, with callbacks that neither reply nor throw: if libzmq accepts its reply, that is the one reply and the loop ends with Running false; if it refuses, the handler throws before it can stop the loop |
| Network.InvKept | lib/+zmq/CommandSocket.m:194-217 | every event of a network of one server and any clients keeps the invariant linking the logs of both ends |
| Network.TokenConserved | lib/+zmq/CommandSocket.m:194-335 | in every reachable state of every interleaving each client is in exactly one of four phases: may send, request in flight, server owes it a reply, reply in flight |
| Network.RepliesCounted | lib/+zmq/CommandSocket.m:304-335 | the server owes at most one client, the sender of the request it read last |
| Network.SentIsAsked | lib/+zmq/CommandSocket.m:213-214 | the requests a client has sent are exactly, in order, the messages of those calls that came in turn and that libzmq accepted, whole; when it refuses nothing, of all calls that came in turn |
| Network.KthReply | lib/+zmq/CommandSocket.m:194-217 | the reply read by the k-th such call of a client is the one the server sent to the message of that call, whatever libzmq refuses |
| Network.KthAnswer | lib/+zmq/CommandSocket.m:194-335 | and that reply is the answer that message deserves or, only if libzmq may refuse some send of the server, the error answer to a refusal |
| Network.SendCommandCompletes | lib/+zmq/CommandSocket.m:194-302 | no deadlock: from every reachable state, whatever libzmq still refuses, an outstanding sendCommand completes after the arrival of its request, finitely many passes and the arrival of its reply, if no frames the server will read stop it and OnError only reports |
| Network.FramesAligned | lib/+zmq/CommandSocket.m:360-408 | if both sides send at most two frames, server and clients stand at a message boundary in every reachable state, error responses included |
| Network.CommandEndToEnd | lib/+zmq/CommandSocket.m:194-335 | for every handler, with callbacks that neither reply nor throw, sendCommand(command, d) in any interleaving gets the first reply of the command's handler, or of the unknown-command response, to d, when the streams fit the buffers; or, only if libzmq may refuse some send of the server, the error answer to a refusal |
| Network.EchoEndToEnd | lib/+zmq/CommandSocket.m:434-446 | with the default handler sendCommand('echo', d) in any letter case gets (d, 'echoresponse') for a nonempty d and the "No object received" struct for an empty one, under the same provisos |
| Network.DefaultsEndToEnd | lib/+zmq/CommandSocket.m:434-488 | and with the default handlers alone every command, known or not, gets its literal reply |
| Network.StoppedIsSilent | lib/+zmq/CommandSocket.m:269-300 | a server that does not run reads and sends nothing until it is started again |
| Network.QuitStopsServer | lib/+zmq/CommandSocket.m:478-488 | with the default handlers a pass stops the server exactly when it answers quit |
| CommandSockets.CommandSocket.constructor | lib/+zmq/CommandSocket.m:43-70 | a started socket has the four default handlers, the five default response handlers, and no callbacks |
| CommandSockets.CommandSocket.RegisterCommand | lib/+zmq/CommandSocket.m:168-179 | commands are registered in lower case and no other command changes |
| CommandSockets.CommandSocket.RegisterResponse | lib/+zmq/CommandSocket.m:181-192 | so are responses |
| CommandSockets.CommandSocket.RegisterDefaultHandlers | lib/+zmq/CommandSocket.m:411-432 | echo, print, gettime and quit answer as their handlers do, the default response handlers do nothing to the socket, and no other entry changes |
| CommandSockets.CommandSocket.SendObject | lib/+zmq/CommandSocket.m:341-374 | sends exactly the message the framing defines, whole or not at all, and throws exactly when it cannot |
| CommandSockets.CommandSocket.ReceiveObject | lib/+zmq/CommandSocket.m:376-409 | receives exactly what Service.Receive says |
| CommandSockets.CommandSocket.Perform | lib/+zmq/CommandSocket.m:314-327 | the loop over user actions does what Service.Run says |
| CommandSockets.CommandSocket.ProcessOneRequest | lib/+zmq/CommandSocket.m:304-336 | mode check, receive, callbacks and dispatch, with every way to wait or throw |
| CommandSockets.CommandSocket.OnePass | lib/+zmq/CommandSocket.m:275-298 | the try/catch body is Service.Pass |
| CommandSockets.CommandSocket.ProcessRequests | lib/+zmq/CommandSocket.m:246-302 | the while loop is Service.Loop, so LoopIsSafe, LongRunEnds, EveryRequestAnswered and UnansweredBecause are about it; in client mode it throws |
| CommandSockets.FreshServerRuns | lib/+zmq/CommandSocket.m:246-302 | a server as constructed, given enough passes, ends waiting with every request answered, or stopped because the frames it read last say quit; and if no frames it has still to read do, with exactly one reply to each request, the deserved one when libzmq refuses nothing |
| CommandSockets.FreshLog | lib/+zmq/CommandSocket.m:411-488 | with the default handlers, frames lead to code that stops the loop exactly when their text says quit in any letter case |
| CommandSockets.CommandSocket.SendResponse | lib/+zmq/CommandSocket.m:231-244 | in server mode sends one whole message or throws, in client mode throws |
| CommandSockets.CommandSocket.SendCommand | lib/+zmq/CommandSocket.m:194-229 | the client's call sends one whole request, reads one reply, runs the response handler and OnResponse on it, and returns it, with every way to throw; an exception from either of them reaches the caller after the reply has been read |
| CommandSockets.CommandSocket.Respond | lib/+zmq/CommandSocket.m:219-228 | user code on the client may throw or clear Running, and leaves the socket alone |
| CommandSockets.ResponseThrows | lib/+zmq/CommandSocket.m:219-228 | the response handler, in any letter case, and then OnResponse: their first action other than setting Running is the exception that reaches the caller |
| Transport.SendArray | lib/+zmq/Socket.m:297-309 | the floor-division loop sends exactly the chunks of FloorChunks as one message, all or nothing, and nbytes is the message length |
| Transport.ChunkCount | lib/+zmq/Socket.m:298-306 | there are floor(L/c)+1 frames, the last empty exactly when c divides L |
| Transport.ChunkAt | lib/+zmq/Socket.m:300-306 | frame i holds bytes i*c up to the next multiple of c or the end |
| Transport.ExactLoss | lib/+zmq/Socket.m:228-239 | through a buffer of r exactly floor(L/c)*max(0,c-r) + max(0,(L mod c)-r) bytes are missing |
| Transport.ChunkedRoundTrip | lib/+zmq/Socket.m:298-308 | the parts put together are the message exactly when r >= min(c, L) |
| Transport.RecvMultipart | lib/+zmq/Socket.m:213-240 | the RCVMORE loop returns what is left of one whole message, each part cut to r; nothing on a timeout; an exception out of turn or with an empty buffer |
| Transport.Transfer | tests/test_socket_send_recv_multipart.m:21-27 | send_multipart then recv_multipart between two sockets: number and contents of the parts, exact loss, and when the message comes back whole |
| Transport.SendCell | lib/+zmq/Socket.m:286-296 | with failures swallowed, the frames queued are exactly the parts that are rows, in order, but for those libzmq refuses as the first of the message; nbytes is their total size; there is an exception exactly when the last part is among the missing |
| Transport.CellRoundTrip | src/core/recv.c:94-101 | a cell comes back as sent exactly when every part fits the buffer |
| Transport.SendString | lib/+zmq/Socket.m:313-323 | a string is sent as the chunks of its bytes |
| Transport.RecvString | lib/+zmq/Socket.m:243-256 | keeps the first part, takes the whole message, and throws exactly when there is no part |
| Transport.StringRoundTrip | lib/+zmq/Socket.m:243-323 | recv_string returns the first min(L, c, r) characters, so it is a round trip exactly when L <= min(c, r) |
| Benchmark.MakeChunks | ZeroMQBenchmark.m:200-205 | the stepping loop yields the ceiling-style chunks |
| Benchmark.ChunkersAgree | ZeroMQBenchmark.m:200-205 | those are send_multipart's chunks without the empty one, which is there exactly when c divides the length |
| Benchmark.SendMultipart | ZeroMQBenchmark.m:271-283 | the sender's loop sends its frames, or the sample for an empty list, as one message, all or nothing |
| Benchmark.RecvDropping | ZeroMQBenchmark.m:285-298 | the receiver takes one whole message and drops its empty frames; a timeout shows up as a part |
| Benchmark.ReceiverYieldsChunks | ZeroMQBenchmark.m:285-298 | given what send_multipart sends and r >= c it yields exactly the benchmark's own chunks |
| Benchmark.ZeroMQBenchmark.StartServer | ZeroMQBenchmark.m:91-137 | over every run with timeouts: the server takes every turn unless it stops, each turn reads one message if there is one (so after n turns exactly the least of the messages delivered up to turn k plus n - k), replies pair up with whole requests whatever fails; with no refused send every request read has its literal echo, and the server stops at an "exit" request and only there |
| Benchmark.ZeroMQBenchmark.ServeOnce | ZeroMQBenchmark.m:111-127 | one turn: nothing on a timeout, else one request and its echo, or "exited" and stop |
| Benchmark.ZeroMQBenchmark.Reply | lib/+zmq/Socket.m:286-296 | the server only ever sends when a whole request has been read and a reply is owed |
| Benchmark.ZeroMQBenchmark.StopServer | ZeroMQBenchmark.m:139-149 | stops and closes without touching the message logs |
| Benchmark.EchoExchange | ZeroMQBenchmark.m:271-298 | exactly when a client gets its own frame list back: all frames nonempty, within both buffers and not read as "exit", or the one list that equals what is left of "exited"; and exactly when it gets as many frames back, which is all the benchmark checks |
| Benchmark.Exchange | ZeroMQBenchmark.m:230-232 | that exchange over two sockets, with no send refused: request sent and delivered, one turn of the server, reply delivered and read; both sides are then ready for the next, unless the request was read as "exit" |
| Benchmark.Round | ZeroMQBenchmark.m:194-243 | a round of the benchmark with no send refused: header and chunks come back in the right number exactly when the header is not empty, and unchanged exactly when besides header and chunks fit both buffers |
| Lifecycle.World.CtxTerm | src/core/ctx_term.c:14-15 | may be called only when every open socket of the context is one whose close failed; blocks exactly if there is such a socket |
| Lifecycle.World.Close | src/core/close.c:19-29 | may be called only on an open socket: no double close |
| Lifecycle.Socket.constructor | lib/+zmq/Socket.m:39-60 | wraps a new socket of the given context, or swallows the failure and leaves the pointer [] |
| Lifecycle.Socket.Bind | lib/+zmq/Socket.m:63-82 | one native call; on success the endpoint is appended, on failure or on a closed wrapper -1 and nothing tracked |
| Lifecycle.Socket.Unbind | lib/+zmq/Socket.m:85-104 | one native call; on success every copy of the endpoint is removed, otherwise nothing |
| Lifecycle.Socket.Connect | lib/+zmq/Socket.m:107-126 | as Bind, for connections |
| Lifecycle.Socket.Disconnect | lib/+zmq/Socket.m:129-149 | as Unbind, for connections |
| Lifecycle.Socket.UnbindAll | lib/+zmq/Socket.m:350 | iterating a snapshot of the list unbind shrinks: one native call per tracked endpoint, each released at most once, and what stays tracked is exactly what was not released |
| Lifecycle.Socket.DisconnectAll | lib/+zmq/Socket.m:351 | the same for connections |
| Lifecycle.DrainedEmpty | lib/+zmq/Socket.m:348-351 | a list ends empty exactly when every endpoint on it was released |
| Lifecycle.Socket.Close | lib/+zmq/Socket.m:342-369 | the native calls made, in order; the wrapper lets go whatever happens; the socket stays open only if linger or close failed; a closed wrapper calls nothing |
| Lifecycle.Socket.CloseTraced | lib/+zmq/Socket.m:342-369 | one attempt per tracked endpoint in order, then linger, then the native close unless linger failed |
| Lifecycle.MinusEach | lib/+zmq/Socket.m:100-102 | removing endpoints from a list drops just those entries and keeps the order of the rest |
| Lifecycle.OwnsClosed | lib/+zmq/Context.m:88-98 | closing one spawned socket keeps: every open socket of the context is spawned or has leaked |
| Lifecycle.OwnsNew | lib/+zmq/Context.m:64-68 | so does spawning one, even when its creation fails |
| Lifecycle.Context.MakeContext | lib/+zmq/Context.m:132-136 | makes a native context exactly when there is none |
| Lifecycle.Context.NewSocket | lib/+zmq/Context.m:55-69 | revives a terminated context and adds the new socket to spawnedSockets |
| Lifecycle.Context.Close | lib/+zmq/Context.m:81-100 | the downward loop closes and forgets every spawned socket, with the native calls of each close, last socket first |
| Lifecycle.Context.Term | lib/+zmq/Context.m:102-126 | those calls, then ctx_term with its precondition met; the pointer becomes 0 exactly if that succeeds, and then no socket of the context is open |
| Lifecycle.Program.Run | lib/+zmq/Context.m:55-126 | over every sequence of socket, bind, unbind, connect, disconnect, close, term, delete and stop on one context object, up to the first endpoint call on a wrapper whose pointer is [], every native call meets its precondition and tracking equals the native endpoints for every live socket |
| Lifecycle.Program.Step | lib/+zmq/Context.m:55-126 | which native calls each of the nine operations makes, in order, and what it leaves of the endpoint lists and of the context |
| Lifecycle.Program.StopOne | lib/+zmq/CommandSocket.m:126-163 | stop releases its endpoint (unbind for a server, disconnect for a client that has an address), makes the calls of closing its socket, and then those of terming the context, which finds that socket closed; ctx_term comes last |
| Options.RemoveChanges | lib/+zmq/Socket.m:385 | strrep changes nothing exactly when 'ZMQ_' does not occur |
| Options.RemoveSplits | lib/+zmq/Socket.m:385 | taking out one occurrence leaves both sides to be cleared on their own, so every occurrence goes |
| Options.NormalizesNames | lib/+zmq/Socket.m:375-387 | a name in any letter case, with or without the prefix, comes out as the prefix and the name in capitals |
| Options.NormalizeTwice | lib/+zmq/Socket.m:375-387 | normalize_const_name is idempotent on a name exactly when its stem contains no 'ZMQ_' |
| Options.NotIdempotent | lib/+zmq/Socket.m:375-387 | a name on which it is not |
| Options.NormalizeMsgOptions | lib/+zmq/Socket.m:390-419 | a leading number is the buffer length, else the default; all names come out normalized, in order |
| Options.ConfigureFlag | src/core/recv.c:73-90 | fails exactly on an unknown option; otherwise the mask depends only on which options are present |
| Options.OrIsMembership | src/core/send.c:73-91 | the accumulated mask is independent of order and repetition |
| Options.CoreRecv | src/core/recv.c:15-36 | a length of 0 ends the call before the flags are read; otherwise zmq_recv is called with that length (255 by default) and the mask, exactly if every flag is known |
| Options.CallsAre | src/core/recv.c:15-36 | the three calls from their arguments alone: exactly the length asked for or the default, flag 1 exactly if there is a name, an error exactly if some name does not end up as DONTWAIT |
| Options.SocketRecv | lib/+zmq/Socket.m:259-271 | recv passes the user's length, or the default, and the names normalized once |
| Options.SocketRecvMultipart | lib/+zmq/Socket.m:213-231 | each receive of recv_multipart passes the same length and the names normalized twice |
| Options.Forwarding | lib/+zmq/Socket.m:224-231 | the two come to the same native call exactly when the length is 0, or some name does not become DONTWAIT even after the prefix is removed twice, or one removal leaves no prefix in any name; whatever recv receives with, length and mask, recv_multipart receives with too |
| Options.ForwardingDiffers | lib/+zmq/Socket.m:269-270 | an option list recv rejects and recv_multipart accepts |
| Conversions.MatrixToM | src/util/conversions.c:9-88 | for all sizes within int, every output cell is written exactly once, in bounds, and the result is the column-major layout |
| Conversions.TransposedAt | src/util/conversions.c:20-24 | out[j*m+i] = in[i*n+j] |
| Conversions.TransposedTwice | src/util/conversions.c:20-24 | copying m-by-n and then n-by-m is the identity |
| Conversions.TransposedPermutes | src/util/conversions.c:20-24 | the output is a permutation of the input |

## Left out

- libzmq itself, the network, timing, high-water marks and signals: an environment whose calls may fail or wait, with the REQ/REP rules above.
- The other mex wrappers (`bind.c`, `connect.c`, `ctx_*.c`, `poll.c`, `version.c`) and the option, socket-type and error tables: argument checks around one foreign call, and lookups in fixed tables.
- Response handlers that call `sendCommand` again, and all display code: the default response handlers are taken to print and not to throw, whatever the reply holds.
- `zmq.Socket.poll`, `get` and `set` other than RCVMORE and the linger of `close`.
- `CommandSocket.start` and `connect`: they only combine `Context.socket`, `bind` and `connect`; the loop is modelled on a started socket.
- Framing.FramingRoundTrip: an empty object other than [] comes back as [], as in the code.
- Service.EveryRequestAnswered: asks that OnError does nothing on the socket, since an OnError that throws leaves the loop and one that replies out of turn throws; Service.LongRunEnds covers the rest.
- Lower and upper case are those of ASCII letters; MATLAB also maps other alphabets.
- Sockets created with `zmq.Socket` directly from a context pointer, bypassing `Context.socket`: the context object does not know of them.
- A second `CommandSocket.stop`: it finds its own handles cleared and does nothing; `Lifecycle.Op.Stop` is the first.
- `Lifecycle.Program` follows one context object; two of them never share a native context or a spawned socket.
- What happens once `bind`, `unbind`, `connect` or `disconnect` is called on a wrapper whose pointer is `[]`.
- Buffer lengths given to `recv` that are not nonnegative integers, and numbers after the first argument.
- Chunk sizes that are not positive integers, and columns or matrices passed to `send`, which the row check rejects.
- The byte copies `uint8_array_to_m` and `uint8_array_from_m`: a memcpy each.
- `sendMultipartObject`/`receiveMultipartObject` of the helper: the receiver passes a cell to the deserializer, so there is no round trip to prove.
- The Java bindings, `benchmark.m`, plotting, statistics, `make.m` and configuration.
