# Verified model of container-web-tty

container-web-tty opens a container's terminal in a browser, shares it with
others, and shows container logs. This project models the six stateful parts of
its server and proves what they keep over whole runs.

- `LogFormat`, `LogParser`, `LogRefinement`, `LogReads`, `LogRuns`: the resumable
  demultiplexer of Docker's log stream. `LogReadCloser.Read` works on the
  caller's buffer and two carried fields; it is proved against an independent
  automaton that takes the stream one byte at a time.
- `WriteArbiter`, `History`, `SharedTty`: one master and many slaves on one
  container: the time-based write arbiter, the 1000-byte history window and the
  publish queues of late joiners.
- `ContainerIndex`, `FindRefinement`, `GrpcRouting`: the map with two keys per
  container that speeds up the container list, its prefix search, and the proxy
  client that merges server reports into it and routes requests through it.
- `Base64`, `WebTty`, `BridgeProtocol`, `BridgeTraffic`: the bridge between a terminal and a
  browser: two loops that share one connection under a mutex, and the browser
  that takes the messages apart.
- `Admission`: the connection counter and the admission check.
- `ExecRegistry`, `IdleTimeout`: exec IDs, registered masters and the idle timer.
- `ShareSession`: clients, bridges, arbiter and history put together.

Objects whose methods update fields are classes, and each method is proved to
step the value given by `State()` or `View()` as a function says. Runs and
interleavings are sequences of events over those functions.

## What holds only under a condition

- A log read follows the byte automaton if and only if it is `Framed`
  (`LogReads.ReadRefines`, for every valid state, buffer and length): it is not taken
  for a raw stream, it brings the payload bytes still owed, and the stale bytes behind
  it in the buffer are harmless. A read that resumes a header parses the whole buffer,
  so what is behind it must lead the automaton back to where it is; otherwise only a
  read that ends inside a payload takes stale bytes along, and they must be nothing or
  the one carriage return its last line gets anyway. `PanicsExactlyWhenShort` gives the
  exact condition for an index out of range, and `ShortReadLeaksStaleBytes` and
  `MidPayloadReadTakenForRaw` are runs from a new parser that leave the condition.
- What a caller gets of a stream without bad headers, in framed reads, depends on how
  it is cut: it is what the uncut stream gives if and only if no cut follows a line
  feed inside a payload and no carriage return is dropped for want of room
  (`OutputDependsOnTheCut`). In any case it is the payload with at most one carriage
  return behind some line feeds.
- A terminal's stream has no frames. Its reads are handed out as they are if and only if
  they have at least four bytes and the second to fourth are not all zero
  (`PassesThroughExactly`); a new parser keeps or drops the bytes of others.
- `Find` is a search of the list for every query longer than twelve characters.
  For shorter ones `FindRefinesListSearch` gives the exact condition: a prefix
  shorter than twelve characters matches both keys of a full ID and so finds
  nothing, and a query of twelve characters finds the last container with it.
  `FindFindsExactly` says for every query which container is found.
- A late joiner subscribes and copies the history in two steps. It has the exact end
  of the stream if and only if the 1000-byte window had the same bytes at both
  (`ExactEndOfStream`). It misses what was still queued for the history goroutine
  (`OnlyTheGapIsMissing`), and what is drained between the two steps reaches it twice
  (`TheOverlapIsRepeated`).
- A registered master is always live, but a live master need not be registered:
  of two that race on one exec ID, the first teardown hides the other
  (`TeardownHidesRacingMaster`).
- A refused connection counts until its handler returns, so one can be refused
  while nobody is admitted (`RefusedThoughNobodyIsAdmitted`).
- The idle timeout counts activities the goroutine has taken out of the channel. A
  cancel leaves the idle time after every activity posted if and only if each one still
  in the channel is that old (`PostedActivitiesExactly`); a younger one is ignored
  (`PostedActivityMayBeIgnored`). That it never cancels early after one it has taken
  out rests on `Reset` withdrawing a pending expiry; with the timers before Go 1.23 it
  can, exactly where a `Reset` finds one (`LegacyRunCancelsEarly`).
- The map of the container index agrees with the list in every field but the shell. The
  shell under a key is the one last set under that very key since its container came, so
  the two agree in full on exactly the keys named in `AgreesInFullExactly`; setting it
  under a full ID does not reach the prefix (`SetShellReachesOneKey`).
- `Start`, `Stop` and `Restart` of the proxy client are meant to succeed when the server
  reports no error, but any error record counts as one, an empty one too, and the
  generated client (proxy/pb/api.pb.go:457-464) always returns a record when the call
  did not fail. The model follows the code: success is never reported.

## Assumptions

- The publish/subscribe library delivers every chunk to every subscriber once and
  in order, and each subscriber has its own copy.
- The clock does not go back between the readings of one session.
- The Go timer has the semantics of Go 1.23 and later, as go.mod asks for.
- Writing to the container and to the connection does not fail while a bridge runs.
- What the daemon puts into the read buffer, clock readings, received chunks, server
  answers and the JSON of a resize message are parameters.

## Model

| member | source | states |
|---|---|---|
| `LogFormat.MsgLenIsPayloadLen` | container/docker/log_parser.go:82-86 | The length read through a hexadecimal string never fails to parse and is the big-endian value of the four length bytes |
| `LogFormat.EncodeHeader` | container/docker/log_parser.go:77-83 | The header of a payload carries its stream and a length that reads back as the payload's |
| `LogParser.LogReadCloser.constructor` | container/docker/log_parser.go:105-113 | A new parser carries no header and owes no payload |
| `LogParser.LogReadCloser.Read` | container/docker/log_parser.go:35-103 | For every read, state, buffer and result are those of the specification, including errors, raw pass-through and out-of-range slices; a header shorter than 8 bytes or an unfinished payload is carried, never both |
| `LogParser.LogReadCloser.ReadFrames` | container/docker/log_parser.go:70-100 | The frame loop terminates, appends every decoded line and leaves the cut header or payload in the fields |
| `LogRefinement.ParseFramesRefines` | container/docker/log_parser.go:70-100 | From any start index the frame loop yields the automaton's output and residual state |
| `LogRefinement.ParseRefines` | container/docker/log_parser.go:59-100 | Resuming from a cut header or payload, a read with no stale buffer byte in play decodes to the automaton's output and leaves its residual state |
| `LogReads.ReadRefines` | container/docker/log_parser.go:35-103 | For every valid state, buffer and length: a read leaves the automaton's residual state, or after a bad header a fresh start, and hands out the automaton's output less at most one carriage return that did not fit, if and only if it is `Framed` |
| `LogReads.RawNeverAgrees` | container/docker/log_parser.go:43-47 | No read that is taken for raw does what the automaton does |
| `LogReads.RawPassesThrough` | container/docker/log_parser.go:43-47 | In every state, a read of at least four bytes of which the second to fourth are not all zero is handed out as it is and changes nothing |
| `LogReads.PassesThroughExactly` | container/docker/log_parser.go:43-47 | With a new parser, a read is handed out as it is if and only if it is such a read or empty: shorter terminal reads are not |
| `LogReads.FramedReadOutput` | container/docker/log_parser.go:100-102 | The output of a framed read is exactly the automaton's, but for the last carriage return when the rest of a carried payload ends a line and fills the buffer |
| `LogReads.ResumedHeaderReadsWholeBuffer` | container/docker/log_parser.go:59-62 | A read that resumes a header and is not taken for raw follows the automaton over the whole buffer, however few bytes of it were delivered |
| `LogReads.ParseStaleTail` | container/docker/log_parser.go:90-92 | The frames of a read that ends inside a payload, with no header carried, leave the automaton's state; they decode to its output if and only if the buffer holds nothing behind the read, or just the carriage return the last line gets anyway |
| `LogReads.StaleTailRead` | container/docker/log_parser.go:90-102 | A short read that ends inside a payload hands out exactly the automaton's output, with the bytes left in the buffer in place of the last carriage return |
| `LogReads.FeedSplitsExactly` | container/docker/log_parser.go:19-31 | Cutting bytes in two changes the automaton's output if and only if the cut follows a line feed inside a payload |
| `LogRefinement.TruncationBound` | container/docker/log_parser.go:59-68 | With no stale buffer byte in play, at most one byte more than was read is decoded, exactly when the carried payload is the whole read and ends a line, and the surplus byte is an inserted carriage return |
| `LogRuns.RunRefinesReads` | container/docker/log_parser.go:35-103 | For any run of framed reads, bad headers included, the final state is the automaton's and the output is the payload with at most a carriage return behind some line feeds |
| `LogRuns.RawRun` | container/docker/log_parser.go:43-47 | A run over a terminal's stream whose reads all look raw hands out exactly the stream |
| `LogRuns.RunRefines` | container/docker/log_parser.go:35-103 | On a stream without bad headers that state and payload do not depend on how the stream is cut |
| `LogRuns.FramesSurviveAnyCut` | container/docker/log_parser.go:35-103 | Any encoded frames, cut anywhere into framed reads, come out as their payloads and leave nothing carried; they look as if never cut if and only if the cuts are clean |
| `LogRuns.WholeFramesRoundTrip` | container/docker/log_parser.go:70-102 | Frames that arrive whole come out exactly, with nothing truncated or carried, whatever the buffer held |
| `LogRuns.DecodeEncoded` | container/docker/log_parser.go:77-99 | The automaton inverts the frame encoding |
| `LogRuns.PanicsExactlyWhenShort` | container/docker/log_parser.go:63-72 | A read never fails on a length; it indexes out of range exactly when it is shorter than the payload bytes owed and bytes 1 to 3, if it has four, are zero; what it leaves then |
| `LogRuns.ShortReadLeaksStaleBytes` | container/docker/log_parser.go:90-92 | After any header, a read that ends inside the payload hands out everything the buffer holds, read or stale, as one line |
| `LogRuns.OutputDependsOnTheCut` | container/docker/log_parser.go:19-31 | On a stream without bad headers, in any run of framed reads the output is exactly that of the uncut stream if and only if no cut follows a line feed inside a payload and no read drops a carriage return |
| `LogRuns.MidPayloadReadTakenForRaw` | container/docker/log_parser.go:43-47 | After the header of any payload, a second read whose first bytes look raw is handed out as it is and leaves the parser owing the whole payload, which the automaton never does |
| `WriteArbiter.WriteExclusion` | types/tty.go:46-61 | In any run from any arbiter state, accepted writes by different participants are at least a second apart, strictly more unless a slave follows the master |
| `WriteArbiter.ArbiterIsHistoryRule` | types/tty.go:162-180 | After any run the three fields decide as the whole history would: a write is accepted if and only if it is not read-only and every accepted write by somebody else is far enough back |
| `WriteArbiter.InputIsSessions` | types/tty.go:87-98 | The container's input is a concatenation of single-writer sessions that keep that distance |
| `WriteArbiter.SessionsOfExclusive` | types/tty.go:162-180 | Grouping an exclusive log by writer keeps every write in order and separates neighbouring groups |
| `WriteArbiter.ErasingRejectedChangesNothing` | types/tty.go:48-56 | Erasing any rejected or read-only attempts changes no later decision, no container input and not the arbiter |
| `WriteArbiter.SecondIsStrictOnlyOneWay` | types/tty.go:162-169 | Exactly a second after the master a slave may write; exactly a second after a slave the master may not |
| `SharedTty.MutexWriter.MasterCanWrite` | types/tty.go:162-164 | The master's check is the arbiter's |
| `SharedTty.MutexWriter.SlaveCanWrite` | types/tty.go:166-180 | The slave's check is the arbiter's, by object identity of the last writer |
| `SharedTty.SlaveTTY.Read` | types/tty.go:33-44 | The first read copies the history and reports the whole buffer, later reads take one chunk off the slave's own queue, copy and report it; longer data is an index out of range, and an empty queue blocks |
| `SharedTty.SlaveTTY.Write` | types/tty.go:46-61 | A slave's write steps the shared arbiter, reaches the container exactly if accepted, and reports what was taken |
| `SharedTty.Topic.Publish` | types/tty.go:81-82 | Every subscriber gets the chunk once, behind what it has queued |
| `SharedTty.MasterTTY.constructor` | types/tty.go:124-150 | A new master has 1000 zero bytes of history, an unused arbiter, and its history queue as the only subscriber |
| `SharedTty.MasterTTY.Read` | types/tty.go:77-85 | Hands out what the terminal yields and publishes exactly that to every subscriber, the history included |
| `SharedTty.MasterTTY.Write` | types/tty.go:87-98 | A master's write steps the shared arbiter and reaches the container exactly if accepted |
| `SharedTty.MasterTTY.KeepHistory` | types/tty.go:139-147 | Draining its queue, the history becomes the last 1000 bytes of 1000 zeros, everything drained before and everything queued |
| `SharedTty.MasterTTY.Fork` | types/tty.go:105-122 | A fork subscribes with an empty queue behind the others, shares terminal and arbiter, and has a copy of the history and its own write flag |
| `History.RecordSlidesWindow` | types/tty.go:141-145 | Appending a chunk and trimming slides the window over the stream |
| `History.StepKeepsInv` | types/tty.go:77-85 | Publishing, draining, subscribing, copying and reading keep queues, window and viewers in step with what was published |
| `History.LateJoinerAgrees` | types/tty.go:33-44 | In every run a late joiner gets the window at its copy and then every chunk published since it subscribed, and no copy overruns its buffer |
| `History.RunIsByEvents` | types/tty.go:77-85 | After any run, what is published, how much the history has drained and how many viewers there are is read off the events |
| `History.LateJoinerByEvents` | types/tty.go:33-44 | Told by the events alone: a viewer has the last 1000 bytes of 1000 zeros and the chunks drained until it copied the window, then the chunks published since it subscribed, in order |
| `History.EveryChunkArrives` | types/tty.go:40-43 | From every reachable state, a viewer that copied the window can read everything published since it subscribed |
| `History.ReadIntoExactly` | types/tty.go:34-43 | A read goes past the buffer exactly when what is due is longer, and else changes only the front of the buffer |
| `History.ExactEndOfStream` | types/tty.go:105-122 | In every run, a late joiner has the exact end of the stream it has read if and only if the window had the same bytes when it subscribed and when it was copied |
| `History.OnlyTheGapIsMissing` | types/tty.go:105-122 | In every run, put the chunks between its window and its queue back, and a late joiner has the exact end of the stream |
| `History.TheOverlapIsRepeated` | types/tty.go:105-122 | In every run, the queue of a late joiner starts with the chunks drained inside its fork; without them it has the exact end of the stream |
| `History.ForkMissesOnlyQueued` | types/tty.go:105-122 | When nothing happens inside a fork, what is missing is exactly what the history goroutine had queued |
| `History.ForkMayRepeat` | types/tty.go:105-122 | A chunk published and drained inside a fork is in the window and in the queue |
| `ContainerIndex.ApplyKeepsInv` | types/containers.go:26-55 | Every operation keeps map and list in agreement on every key |
| `ContainerIndex.RunValueExactly` | types/containers.go:26-55 | After any run a key is in the map exactly if a listed container has it as ID or 12-character prefix, and its value is the last such container with the shell last set under that very key since the container came |
| `ContainerIndex.Containers.constructor` | types/containers.go:93-97 | A new index is empty |
| `ContainerIndex.LenZeroExactlyWhenUnlisted` | types/containers.go:20-24 | Over any run the length of the index, which counts keys, is zero exactly when nothing is listed, and at most twice the number of listed containers |
| `ContainerIndex.ListedInOrder` | types/containers.go:15-55 | From one `Set` to the next, the list is what was set and then the containers with an ID that were appended, in order |
| `ContainerIndex.Containers.Set` | types/containers.go:26-40 | Replaces list and map; later containers win a key |
| `ContainerIndex.Containers.Append` | types/containers.go:42-55 | Adds a container under both keys, or nothing without an ID |
| `ContainerIndex.Containers.Find` | types/containers.go:57-80 | For every order of map iteration: the exact key, else the value of the only key with the prefix, else the empty container |
| `ContainerIndex.CountMatches` | types/containers.go:67-74 | Counts the keys with the prefix in any order and ends with the value of one of them |
| `ContainerIndex.Containers.SetShell` | types/containers.go:82-91 | Changes the shell under one existing key only |
| `ContainerIndex.AgreesInFullExactly` | types/containers.go:82-91 | After any run, map and list agree on a key in every field if and only if no shell was set under that key since its container came, or just the one it has |
| `FindRefinement.FindRefinesListSearch` | types/containers.go:57-80 | With distinct IDs, finds what the list search finds if and only if the condition on the query holds, and always for more than twelve characters |
| `FindRefinement.FindFindsExactly` | types/containers.go:57-80 | For every query over distinct IDs, which container of the list `Find` finds, or none |
| `FindRefinement.FindAfterRun` | types/containers.go:57-91 | After any run with distinct IDs, for every query: `Find` returns exactly that container, with the shell last set under the key it was found by, or the empty container |
| `FindRefinement.ShortPrefixIsNeverUnique` | types/containers.go:67-79 | The failing family: a short prefix of one full ID finds nothing |
| `GrpcRouting.ListSound` | container/grpc/grpc.go:152-180 | In every visiting order each reported ID is listed exactly once, as the record of a reachable server that reported it, and nothing else is |
| `GrpcRouting.ListInOrder` | container/grpc/grpc.go:156-174 | The list is the reports in visiting order, each in its server's order, without records whose ID was reported before |
| `GrpcRouting.GrpcCli.constructor` | container/grpc/grpc.go:56-118 | The clients are exactly the configured servers that could be dialled and answered the first ping; the index is empty |
| `GrpcRouting.GrpcCli.List` | container/grpc/grpc.go:152-180 | Visits every client once, merges the reports and replaces the index with them |
| `GrpcRouting.AddServer` | container/grpc/grpc.go:166-173 | Adds the containers of one server whose ID is new |
| `GrpcRouting.GrpcCli.ContainerAction` | container/grpc/grpc.go:182-214 | Not found, location server missing, unknown action, or sent to the location server with the ID asked for; success is never reported, because the generated client returns an error record whenever it returns no error |
| `GrpcRouting.GrpcCli.Logs` | container/grpc/grpc.go:270-317 | Not found, server missing, server not ready, or followed under the full ID; it succeeds exactly if it was followed and the server opened the stream |
| `GrpcRouting.RoutedToAReportingServer` | container/grpc/grpc.go:182-214 | In every run "location server not found" cannot happen and requests go to a server that reported the container found |
| `GrpcRouting.ReportedIdIsRouted` | container/grpc/grpc.go:182-214 | Every full ID a reachable server reported is found, and its actions and logs are routed to a server that reported it |
| `GrpcRouting.RoutedAsListed` | container/grpc/grpc.go:182-295 | In every run, for every query: not found exactly when the query finds nothing in the list; otherwise start, stop and restart go to the location server of the container found with the query, logs with its full ID, and other actions are unknown |
| `GrpcRouting.LearnedShellIsFound` | container/grpc/grpc.go:126-149 | In every run a query finds its container with the shell last learned under the key it was found by since the last refresh |
| `Base64.RoundTrip` | third-part/gotty/webtty/webtty.go:140-148 | Decoding the encoding of any byte string gives it back |
| `Base64.GroupIsOneNumber` | third-part/gotty/webtty/webtty.go:141 | A group of bytes and its digits are the same 24-bit number, as section 4 of RFC 4648 has it |
| `Base64.DigitIsStandard` | third-part/gotty/webtty/webtty.go:141 | The digits are those of table 1 of RFC 4648 |
| `WebTty.WebTTY.constructor` | third-part/gotty/webtty/webtty.go:38-55 | A new bridge has written nothing |
| `WebTty.WebTTY.SendInitializeMessage` | third-part/gotty/webtty/webtty.go:114-138 | Sends title, reconnect time and preferences, each only if configured |
| `WebTty.WebTTY.HandleSlaveReadEvent` | third-part/gotty/webtty/webtty.go:140-148 | Sends one output frame for a chunk |
| `WebTty.WebTTY.HandleMasterReadEvent` | third-part/gotty/webtty/webtty.go:162-218 | Read off the message: the bytes the slave gets, the pong sent, the columns and rows set, and whether it ends the session |
| `WebTty.WebTTY.MasterLoop` | third-part/gotty/webtty/webtty.go:88-103 | Over a message sequence, up to the first malformed one: the slave gets exactly the tails of the Input messages when writing is permitted, nothing otherwise, every ping one pong, and the terminal the sizes of the resize messages |
| `WebTty.HandleMeansMessage` | third-part/gotty/webtty/webtty.go:162-218 | What the code makes of every message: ended exactly if it is empty, of unknown type, or an unparsable resize where the size is open; its input, pong, columns and rows |
| `WebTty.InitFramesInOrder` | third-part/gotty/webtty/webtty.go:114-138 | The initial messages come as title, reconnect time, preferences |
| `BridgeProtocol.OutputIsPrinted` | js/src/webtty.ts:104-111 | The browser prints exactly the chunk an output frame was made of |
| `BridgeProtocol.InitConfigures` | js/src/webtty.ts:112-124 | The initial messages set title, preferences and reconnect time and print nothing |
| `BridgeProtocol.StepKeepsInv` | third-part/gotty/webtty/webtty.go:69-103 | Every step of either loop, the mutex and the network keeps the bridge invariant |
| `BridgeProtocol.OutputFidelity` | third-part/gotty/webtty/webtty.go:69-103 | Under every interleaving the browser has printed a prefix of the chunks the slave delivered, in order, and all of them when nothing is in flight |
| `BridgeProtocol.NextChunkIsPrinted` | third-part/gotty/webtty/webtty.go:72-85 | In every run, if the slave loop waits, the next chunk can be taken and delivered, and then the browser has printed everything delivered and that chunk |
| `BridgeProtocol.EndsAreFinal` | third-part/gotty/webtty/webtty.go:75-101 | After the slave's end no chunk is taken, and after the connection's end or a malformed message none is heard |
| `BridgeTraffic.WholeMessages` | third-part/gotty/webtty/webtty.go:150-160 | Under every interleaving the loops are never inside the connection at once, and the messages sent are the initial ones, the frames of the chunks in order and whole, and exactly the pongs of the pings heard |
| `Admission.Counter.constructor` | route/handler_atomic.go:16-29 | A new counter is zero, and its timer runs unless the duration is zero |
| `Admission.Counter.Add` | route/handler_atomic.go:31-42 | Adds to connections and wait group, stops the timer and returns the new number |
| `Admission.Counter.Done` | route/handler_atomic.go:44-55 | Takes one off both and restarts the timer at zero |
| `Admission.StepKeepsInv` | route/exec.go:60-78 | Arriving, checking, leaving and expiry keep every live handler's number one above those it found, at least i for the i-th, and the counter in step |
| `Admission.BoundedAdmission` | route/exec.go:73-78 | Under every interleaving at most the maximal number of handlers are past the check at once |
| `Admission.CounterCoupling` | route/handler_atomic.go:16-55 | Connections, wait group and live handlers always agree; the zero timer is set exactly when none is live, and with duration zero never delivers |
| `Admission.AnyHandlerProceeds` | route/exec.go:60-78 | In every run every counted handler can be checked, against the handlers it found, and every checked one leave, without touching the others |
| `Admission.AlwaysRecovers` | route/exec.go:60-78 | In every run all handlers can return; then the count is zero, the timer runs and can expire, and a new handler is admitted unless the limit is negative |
| `Admission.RefusedExactlyWhenFull` | route/exec.go:60-78 | In every run, whatever happens between arrival and check, a checked handler is refused exactly if the live handlers had reached the limit when it was counted |
| `Admission.RefusedThoughNobodyIsAdmitted` | route/exec.go:60-78 | A run in which a refused handler that has not returned keeps another one out while nobody is admitted |
| `ExecRegistry.RunKeepsInv` | route/exec.go:178-189 | In every run every registered master is live and stands under the ID it registered |
| `ExecRegistry.LookupFindsLastRegistered` | route/exec.go:39-46 | A lookup finds a master exactly if the last registration or teardown on the ID was its registration |
| `ExecRegistry.LookupIsLive` | route/exec.go:39-46 | In every run a share lookup only obtains a master that registered under the ID and was not torn down since |
| `ExecRegistry.TeardownHidesRacingMaster` | route/exec.go:178-189 | Of two masters on one exec ID the first teardown hides the one still live |
| `ExecRegistry.Server.constructor` | route/exec.go:178-180 | A new registry is empty |
| `ExecRegistry.Server.SetContainerID` | route/id.go:12-18 | Maps the drawn exec ID to the container |
| `ExecRegistry.ResolvesLastOpened` | route/id.go:5-18 | After any run an exec ID stands for a container exactly if no master under it was torn down since it was last opened, and then for that one |
| `ExecRegistry.Server.FindMaster` | route/exec.go:39-41 | The lookup of a share handler |
| `ExecRegistry.Server.RegisterMaster` | route/exec.go:178-180 | Enters a master, over whatever stood there |
| `ExecRegistry.Server.TeardownMaster` | route/exec.go:182-189 | Deletes exec ID and master entry, whoever's it is |
| `IdleTimeout.IdleWatch.Loop` | route/exec.go:138-160 | The branches of the select loop, with clock, timer, senders and close around them in any order, run the transition system |
| `IdleTimeout.RunKeepsInv` | route/exec.go:142-157 | Every step keeps the deadline the idle time after start and activities, delivers no expiry before it, and leaves one to come while the goroutine waits |
| `IdleTimeout.NoEarlyCancel` | route/exec.go:138-160 | In every run a session is cancelled no earlier than the idle time after the start and after every activity processed, and never without an idle time |
| `IdleTimeout.EndsForGood` | route/exec.go:146-153 | Once the channel was seen closed or the session cancelled, nothing is cancelled or processed any more |
| `IdleTimeout.ClosedIsFinal` | route/exec.go:150-153 | In every run, after the end of the channel was taken the session is never cancelled and no activity processed |
| `IdleTimeout.CloseEnds` | route/exec.go:150-153 | From every waiting state a close can end the goroutine, after what is in the channel |
| `IdleTimeout.IdleSessionIsCancelled` | route/exec.go:142-149 | From every reachable state that waits with nothing in the channel, only the timer can wake the goroutine, and it cancels within the idle time |
| `IdleTimeout.LegacyAgreesUnlessPending` | route/exec.go:155 | Timers before Go 1.23 run the same unless a `Reset` finds an expiry pending |
| `IdleTimeout.LegacyDiffersWhenPending` | route/exec.go:155 | Where one does, that timer can cancel right after an activity |
| `IdleTimeout.LegacyRunCancelsEarly` | route/exec.go:155 | For every idle time such a run exists from the start |
| `IdleTimeout.PostedActivitiesExactly` | route/exec.go:145-156 | In every run, whenever the goroutine can cancel, it leaves the idle time after every activity posted if and only if it does after those still in the channel; with an empty channel it always does |
| `IdleTimeout.PostedActivityMayBeIgnored` | route/exec.go:145-150 | The failing family: for every idle time a run cancels although an activity was just posted |
| `ShareSession.ViewersDoNotInterfere` | route/share.go:47-59 | Without collaboration, erasing all messages of all viewers leaves container input, arbiter and terminal size unchanged |
| `ShareSession.ViewersInterfereExactly` | route/share.go:47-59 | In any mode, a new session runs for the owner as if there were no viewers if and only if no write of a viewer is accepted |
| `ShareSession.StepIsByMessage` | route/share.go:47-59 | What any message of any client does to a session, read off the message: input only from the owner or in collaborate mode, sizes only from the owner |
| `ShareSession.ClientsExclude` | types/tty.go:46-61 | The container's input is what the clients added, and any two additions of different clients are at least a second apart, more unless a viewer follows the owner |
| `ShareSession.ClientWritesExactly` | types/tty.go:162-180 | After any run, the input of a running client is added if and only if it is the owner or the session collaborative, and every earlier addition by another client is far enough back |
| `ShareSession.ViewerPrintsHistoryThenOutput` | types/tty.go:33-44 | A viewer's browser prints the history window, the buffer bytes the replay reports beyond it, and then the output since it subscribed |

## Left out

- Docker, Kubernetes and gRPC clients, sockets, HTTP routing, templates, flags and signals: I/O and libraries.
- WebSocket framing and JSON: messages are byte sequences, the JSON of a resize message an uninterpreted partial function, the JSON of reconnect and preferences is handed on as bytes.
- Go memory-model races on the history slice: draining and copying the window are atomic steps.
- Aliasing of Go slices (`Set` keeps the caller's slice, `_makeLine` a copy): sequences are values.
- Messages longer than the 1024-byte buffer of the message loop: a message arrives whole.
- `GetInfo` and `Exec` of the proxy client: `GetInfo` returns the remote's record, not the listed one; of it only the shell it learns is modelled.
- The random exec IDs of `util.ID`, the audit log writer, list options and protobuf conversions: easy members.
- Errors of the container's and the connection's `Write`: a bridge runs until its input ends or is malformed.
- WebTty.WebTTY.MasterLoop: does not model the context that can cancel the loops from outside, nor a slave or connection that fails.
- A reader that posts an activity after the channel was closed: the source panics there, the model ignores it.
- When activities are posted: a terminal posts when it saw an empty channel (container/docker/slave.go:28-33); the model lets it post whenever there is room, so its runs include those of the source.
- The proxy dialler and its error when a client is made.
- Base64.Decode: is the strict decoder; Go's `DecodeString` and a browser's `atob` also take line breaks or unused bits, and `atob` missing padding, none of which the server sends.
- LogRuns.RunRefinesReads: does not extend to reads outside `Framed`, which by `LogReads.ReadRefines` never follow the automaton.
