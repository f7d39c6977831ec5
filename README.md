# aesdsocket in Dafny

This is a model of the `aesdsocket` TCP daemon, `server/aesdsocket.c`.

The daemon accepts one client at a time. It receives a packet from the client, that is, chunks of at most `BUFFER_SIZE` (1024) bytes up to the first chunk holding a newline, or up to a zero-length read. It appends the packet to the log file `/var/tmp/aesdsocketdata`, reads the whole file back and sends it to the client, then closes the connection. It keeps doing this until SIGINT or SIGTERM sets the `stop_server` flag. `main` picks foreground or daemon mode from its arguments, and removes the log file when the loop ends.

The model replaces every system call with a value handed in by the caller:
- what each `recv` returns: `Data(chunk)`, `Closed` (zero bytes) or `Err`;
- what each `accept` returns: `Timeout` (EWOULDBLOCK/EAGAIN), `Fail` or `Client(session)`;
- the SIGINT and SIGTERM signals delivered during each pass of the accept loop (the only signals `main` installs `signal_handler` for, lines 357-358);
- which open, write, read or send fails in a session (`IoFaults`);
- whether setting up the listening socket succeeds (`startupOk`).

Modules:
- `AesdTypes`: the constants and these values.
- `Signals`: the signal handler's rule.
- `Packets`: the receive loop, as a specification (`Packet`) and as a method (`ReceivePacket`).
- `Connection`: what one session does to the file and to the client (`Handle`, `Echo`).
- `ServerSpec`: the accept loop as a function of the script (`Run`), with its properties.
- `Cli`: the argument check and the return value of `main`.
- `DaemonState`: the class `AesdSocket`, whose fields are the log file (`store`), the bytes sent on the current connection (`sent`), what every closed connection received (`replies`) and `stop_server` (`stop`). Its methods follow the C functions, and `DeliverSignals` replays the handler's asynchronous calls. The receive, read-back and accept loops are `while` loops with invariants. Each method is proved to match the specification functions above.

In three places the code behaves differently from what such a daemon might be expected to do, and the model follows the code:
- **Silent clients get no echo.** One might expect a client that sends nothing before closing to get the file's contents back. In the code, `packet` stays `NULL` (line 70), so nothing is written or sent and 0 is returned. `Connection.Handle` and `Packets.EmptyPacketIffImmediateClose` state this.
- **A failed session stops the server.** One might expect an I/O error in one session to affect only that client. In the code, a handler result below 0 makes `run_server_socket` return -1 (lines 311-316), and the server stops accepting. `main` still returns 0 after that (lines 369-381). `ServerSpec.FailureEndsLoop`, `ServerSpec.RunFailsOnlyOnFailure` and `Cli.MainReturn` state this.
- **Shutdown goes through the error path.** The receive timeout set at line 240 stops a blocked `accept` from being restarted after a signal. So SIGINT or SIGTERM during `accept` makes it fail with `EINTR`, and the loop returns -1 at line 303. Any other SIGINT or SIGTERM gives 0 at the next test, unless that pass fails for another reason: an accept error, or a session returning -1 (`ServerSpec.FailureEndsLoop`, which holds whatever signals the pass carries). Such a signal may land while a client is served (`ServerSpec.StopDuringSession`), or after the test, with `accept` then timing out (`ServerSpec.StopAfterIdleTimeout`) or returning a client. Either way `main` returns 0. `ServerSpec.SignalDuringAccept` and `Cli.ShutdownBySignal` state the `EINTR` case.

## Model

| member | source | states |
|---|---|---|
| Signals.StopAfter | server/aesdsocket.c:12-23 | SIGINT or SIGTERM sets the flag; any other signal leaves it as it was |
| Signals.StopAfterIdempotent | server/aesdsocket.c:12-23 | handling the same signal twice leaves the flag as handling it once does |
| Signals.ApplySignalsIff | server/aesdsocket.c:12-23 | after a series of signals the flag is set exactly when it was set before or one of them is SIGINT/SIGTERM, in both directions; the handler never clears it |
| Packets.StopIndex | server/aesdsocket.c:30-68 | the receive loop stops at the first result that is an error, a close or a chunk holding a newline; every result before it continues the loop |
| Packets.ReceivePacket | server/aesdsocket.c:27-68 | the recv loop makes exactly `RecvCalls` calls, fails exactly when it stops at an error, and otherwise yields `Packet`, the concatenation of every chunk it read |
| Packets.PacketEndsAtFirstNewline | server/aesdsocket.c:59-67 | after chunks without a newline, the first chunk holding a newline, wherever the newline is in it, ends the packet; the chunk is kept whole and nothing after it is read |
| Packets.FullChunkWithFinalNewline | server/aesdsocket.c:32-33 | a full 1024-byte chunk ending in a newline completes the packet in one call, with no further read |
| Packets.PacketEndsAtClose | server/aesdsocket.c:42-46 | a zero-length read ends the loop without error, and the packet is what came before it |
| Packets.PacketFailsAtError | server/aesdsocket.c:35-41 | a recv error after continuing chunks ends the loop with a failure at that call |
| Packets.OutcomeIgnoresLaterResults | server/aesdsocket.c:30-68 | once the loop has stopped, later recv results change neither the number of calls nor whether it failed |
| Packets.PacketIgnoresLaterResults | server/aesdsocket.c:30-68 | once the loop has stopped, later recv results do not change the packet |
| Packets.EmptyPacketIffImmediateClose | server/aesdsocket.c:27-70 | without a recv error, the packet is empty exactly when the first result is a close (or there is none), in both directions |
| Connection.Echo | server/aesdsocket.c:99-131 | the read-back loop returns 0 or -1; the client gets a prefix of the file, and the whole file when it returns 0 |
| Connection.EchoWholeChunks | server/aesdsocket.c:104-131 | what the client received is the whole file or a whole number of 1024-byte chunks |
| Connection.Handle | server/aesdsocket.c:25-138 | a session returns 0 or -1, only appends to the file, and sends a prefix of the new file. A recv error, or a failed open or write, leaves the file untouched and sends nothing (-1). An empty packet returns 0 with nothing written or sent. A successful session with a packet appends it and sends the whole file |
| Connection.EchoFailureKeepsAppend | server/aesdsocket.c:99-131 | a failed read-back or send returns -1 but the packet stays appended |
| Connection.FaultFreeSession | server/aesdsocket.c:25-138 | with no fault and no recv error, a session returns 0, appends its packet, and echoes the whole file (nothing when the packet is empty) |
| ServerSpec.Iterate | server/aesdsocket.c:290-318 | one pass applies its signals to the flag, appends only a client's commit, gives a reply only to an accepted client (a prefix of the file), and exits exactly on an accept error or a failed session, never on a timeout |
| ServerSpec.Run | server/aesdsocket.c:286-322 | the loop returns 0 only once the flag is observed. A -1 comes from the last consumed step, which is never a timeout. Otherwise the loop is still running, with every step consumed and the flag clear |
| ServerSpec.RunFailsOnlyOnFailure | server/aesdsocket.c:294-316 | a -1 from the loop means its last consumed accept failed, or accepted a client whose session returned -1 on the file as the earlier steps left it |
| ServerSpec.RunAdvance | server/aesdsocket.c:288-319 | the whole run is the passes already done followed by the run from the current pass (the loop invariant of run_server_socket) |
| ServerSpec.RunFinish | server/aesdsocket.c:288-321 | when the while test fails, the run returns 0 if the flag is set, and is still running otherwise |
| ServerSpec.RunStore | server/aesdsocket.c:286-322 | after any run, the file is the old file followed by each consumed client's commit, in accept order |
| ServerSpec.RepliesArePrefixes | server/aesdsocket.c:286-322 | every client receives a prefix of the file as it is at the end of the run |
| ServerSpec.StopAfterIdleTimeout | server/aesdsocket.c:288-298 | SIGINT/SIGTERM that does not interrupt accept, which then times out, makes the loop return 0 at the next test, without touching the file or reading further steps |
| ServerSpec.StopDuringSession | server/aesdsocket.c:288-321 | SIGINT/SIGTERM during a session that still returns 0 lets that session commit and reply, and the loop returns 0 at the next test |
| ServerSpec.SignalDuringAccept | server/aesdsocket.c:292-303 | SIGINT/SIGTERM that interrupts a blocked accept (EINTR, not a timeout code) ends the loop with -1, the flag set and the file untouched |
| ServerSpec.TimeoutIsTransparent | server/aesdsocket.c:294-299 | a timeout with no signal changes nothing, and the loop goes on with the next step |
| ServerSpec.FailureEndsLoop | server/aesdsocket.c:300-316 | a failing accept, or a session returning -1, ends the loop with -1 at once, keeping that session's commit |
| ServerSpec.CleanTurn | server/aesdsocket.c:307-318 | a clean client appends its packet and receives the whole file |
| ServerSpec.CleanSessionsEcho | server/aesdsocket.c:286-322 | clients sending packets p1..pk in turn leave the file as old + p1+…+pk, and client i receives exactly old + p1+…+pi |
| ServerSpec.ExampleSessionsClean | server/aesdsocket.c:59-67 | the one-chunk sessions "hello\n" and "world\n" are clean, and each packet is its chunk |
| ServerSpec.HelloWorld | server/aesdsocket.c:286-322 | on an empty file, "hello\n" then "world\n" leave "hello\nworld\n", and the replies are "hello\n" then "hello\nworld\n" |
| Cli.Classify | server/aesdsocket.c:338-354 | foreground exactly when there is no argument, daemon exactly when the only argument is "-d", usage otherwise |
| Cli.MainReturn | server/aesdsocket.c:338-381 | main returns -1 on a usage error or a failed startup, before the loop. It returns 0 exactly when the loop returned, whether with 0 or -1 |
| Cli.ShutdownBySignal | server/aesdsocket.c:292-381 | SIGINT/SIGTERM during a blocked accept of a started server ends the loop with -1 and the flag set, and main still returns 0 |
| Cli.ExitStatus | server/aesdsocket.c:353 | the exit status is the low eight bits of main's return value |
| Cli.ExitStatusOfMain | server/aesdsocket.c:353-381 | the process exits with 0 when main returns 0, and with 255 when it returns -1 |
| DaemonState.AesdSocket.constructor | server/aesdsocket.c:9 | at start the flag is clear, nothing has been sent, and the file holds what an earlier run left in it |
| DaemonState.AesdSocket.SignalHandler | server/aesdsocket.c:12-23 | the handler updates the flag by `StopAfter` and changes nothing else |
| DaemonState.AesdSocket.DeliverSignals | server/aesdsocket.c:12-23 | running the handler for each signal in turn leaves the flag at `ApplySignals` |
| DaemonState.AesdSocket.EchoStore | server/aesdsocket.c:99-131 | the chunked read-and-send loop returns `Echo`'s status and appends exactly `Echo`'s bytes to what was sent; the file is not changed |
| DaemonState.AesdSocket.HandleClient | server/aesdsocket.c:25-138 | handle_client_connection leaves the file, the result and the bytes sent as `Handle` says |
| DaemonState.AesdSocket.Serve | server/aesdsocket.c:290-318 | one pass of the loop body leaves the file, the flag and the reply log as `Iterate` says; the bytes sent are those of the new connection, or untouched when there is none |
| DaemonState.AesdSocket.RunServer | server/aesdsocket.c:286-322 | run_server_socket returns `Run`'s status and consumes its steps; the file, the flag and the reply log end as `Run` says, and the bytes sent are those of the last connection |
| DaemonState.AesdSocket.Launch | server/aesdsocket.c:331-382 | main returns `MainReturn`. A usage error or a failed startup changes nothing: not the file, the bytes sent, the flag or the reply log. Otherwise the loop runs as `Run` says, and once it has returned the log file is removed |

## Left out

- Socket setup (`start_server_socket`, lines 190-284): getaddrinfo, socket, setsockopt, bind and listen are reduced to the single flag `startupOk`.
- Daemonizing (`start_daemon`, lines 141-188): fork, setsid, chdir and the /dev/null redirection are left out. The forked parent exits with 0, which the model does not show. Daemon mode is only classified.
- syslog, printf and the usage text (lines 324-329) produce only output and are left out.
- A realloc failure in the receive loop (lines 49-57) is left out; the growing buffer is a sequence.
- Partial transfers: a `write` or `send` either moves every byte or fails, and each `read` of the log file (line 106) returns 1024 bytes or what is left of the file, whichever is less. Short counts are not modelled; `Connection.EchoWholeChunks` and the chunk indices of `EchoFault` rely on this.
- Signal timing: when a signal arrives is up to the script. A signal during a blocked `accept` is the step `Step(sigs, Fail)` (`EINTR`). One that lets `accept` time out is `Step(sigs, Timeout)`. One during a session is `Step(sigs, Client(s))`, where the session's own script says whether its `recv`, `read` or `send` was interrupted (`Err` or a fault).
- Signals other than SIGINT and SIGTERM keep their default action: most, such as SIGHUP or SIGUSR1, end the process, and some, such as SIGCHLD, are ignored. Neither kind reaches `signal_handler`, so the script holds only SIGINT and SIGTERM (`Signals.CaughtSignal`). A process killed this way is not modelled. The handler's else branch (lines 19-22) is modelled by `Signals.StopAfter` but never runs in the program.
- SIGPIPE: `send` at line 121 passes no flags and SIGPIPE is not ignored, so sending to a peer that has reset the connection can kill the process instead of returning -1 at lines 123-129. The model has only the -1 path (`EchoFault.SendFailsAt`).
- A recv script that runs out is treated as a zero-length read.
- An accept script that runs out gives `Running`, which stands for a prefix of a run that has not ended. The model does not claim the loop terminates.
- The order of signals within a pass: they take effect before the accept outcome. The handler only sets the flag, and the flag is read only at the loop test, so this order changes nothing.
- The reopen for reading (line 102) is not checked by the code. Its failure is modelled as the first read failing (`IoFaults.reopenFails`).
- `remove(FILE_PATH)` at shutdown is modelled as emptying the file. A failure to remove it is not modelled.
- Closing of file descriptors and freeing of buffers are not modelled.
- Concurrency: the server handles one client at a time, and the only shared state is `stop_server`, which the handler sets and the loop reads. Beyond that, the asynchronous delivery of signals is not modelled.
- From `server/aesdsocket.h` the model uses `BUFFER_SIZE` (line 19, `AesdTypes.BUFFER_SIZE`). `FILE_PATH` names the log file, which the model holds as the field `store`; `PORT` and `BACKLOG` are used only by the socket setup left out above.
