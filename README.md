# nsfdsuds: a Dafny model of the namespace descriptor hand-off

`nsfdsuds` passes a set of Linux namespace descriptors from one process to another over a
Unix domain socket. The holder runs in `--server` mode. It opens `/proc/self/ns/<kind>` for the
six kinds (ipc, mnt, net, pid, user, uts), listens on the socket path and accepts one receiver.
It then answers that receiver's one-byte commands:

- start (42);
- fds (44), which sends the six descriptors as one `SCM_RIGHTS` control record;
- end (43);
- error (45).

The receiver runs in `--client` mode. It writes `start, fds, end` in one go, checks the record
it receives and copies the descriptors into its own slots. It then either returns or hands
over to `execv`.

This project models that core in Dafny. Every system call is replaced by the value it
returned, which is supplied as an input.

- `wire.dfy` (`Wire`): the command bytes, the slot count, the "absent" slot value -1 and the
  socket-level constants. The x86-64 Linux values are used:
  - `SOL_SOCKET` = 1, `SCM_RIGHTS` = 1;
  - `sizeof(int)` = 4, an aligned `cmsghdr` of 16 bytes (so `CMSG_LEN(24)` = 40);
  - `sun_path` capacity 108, `ENOENT` = 2.
- `namespaces.dfy` (`Namespaces`): the namespace paths and their buffer bound. It also holds
  the slot-by-slot effect of the open loop and of `close_nsfds`, as functions on the slot
  sequence, with the idempotence and retry lemmas.
- `codec.dfy` (`Codec`): `send_fds`/`recv_fds` abstracted to a record holding the in-band
  byte count, level, type, length and six ints. It has the receiver's ordered checks and the
  round trip.
- `protocol.dfy` (`Protocol`): `serve_client` as a function of the read results and the
  `sendmsg` results, with lemmas for each fault, the receiver's script and the shape of every
  served session.
- `args.dfy` (`Args`): `check_args`, over the arguments as NUL-free byte strings, as `strcmp` and `strlen` see them.
- `teardown.dfy` (`Teardown`): the holder's run as a trace of steps. A step may acquire or
  release a resource (the socket path, the listening socket, the namespace set, the
  connection). "Well bracketed" means everything acquired is released exactly once, in
  reverse order. "Chained" means each set-up step runs only after the one before it
  succeeded.
- `server.dfy` (`Server`): `server_mode` as a function of what its calls return. It is built
  as three nested brackets that mirror its clean-up labels. Lemmas prove that the run is
  chained and well bracketed, that `unlink_socket` comes after the socket close, and which
  failures decide the exit status.
- `nsfdsuds.dfy` (`Nsfdsuds`): the program record as a class whose `nsfds` array is updated in
  place. It holds main's slot initialisation, `close_nsfds`, the open loop, `send_fds`,
  `recv_fds`, `serve_client`, `server_mode`, `client_of_server` and `client_mode`. Each is a
  method proved against the functions above. `Handoff` connects a holder and a receiver end to
  end.

A 0-byte read (end of file) on the command channel is not treated as a fault:
nsfdsuds.c:413 rejects only -1. After a 0-byte read the switch runs again on whatever `cmd`
still holds, and on the first read `cmd` is uninitialised. In the model, `ReadEof` keeps the
previous command, and the initial value of `cmd` is a parameter that may be any byte.

## Model

| member | source | states |
|---|---|---|
| Namespaces.NsPath | nsfdsuds.c:468-509 | the path opened for a slot is the prefix followed by the slot's kind; it and its terminator fit the path buffer of CountOf(ns_path) + CountOf(ns_types[0]) chars, and the kind fits its row sized for "user" |
| Namespaces.NsPathsDistinct | nsfdsuds.c:80-89 | different slots open different paths |
| Nsfdsuds.Program.constructor | nsfdsuds.c:117-118 | main leaves every one of the six slots at -1 |
| Namespaces.AttemptedExactly | nsfdsuds.c:262-265 | the slots close_nsfds calls close on are exactly the slots that are not -1, in increasing slot order |
| Nsfdsuds.Program.CloseNsFds | nsfdsuds.c:252-281 | every slot that is not -1 is attempted, in order; a slot becomes -1 exactly when its close returns 0, and failed slots keep their descriptor; the result is success exactly when no attempted close failed |
| Namespaces.CloseTouchesOnlyAttempted | nsfdsuds.c:262-277 | a slot changes exactly when it was attempted and its close succeeded, and then it becomes -1 |
| Namespaces.CloseAllLeavesNothingOpen | nsfdsuds.c:269-277 | after a pass in which every close succeeded, every slot is -1 |
| Namespaces.AttemptedNoneWhenAbsent | nsfdsuds.c:262-265 | over all-absent slots no close is attempted |
| Namespaces.CloseOverAbsent | nsfdsuds.c:261-265 | over all-absent slots close_nsfds attempts nothing, changes nothing and reports success |
| Namespaces.CloseIdempotent | nsfdsuds.c:252-281 | a second close_nsfds after an all-success call attempts nothing, changes nothing and succeeds, whatever close would return |
| Namespaces.CloseRetriesOnlyFailures | nsfdsuds.c:269-277 | a second pass attempts exactly the slots whose close failed in the first |
| Namespaces.FirstFailure | nsfdsuds.c:512-519 | the index of the first open returning -1 (or 6): every earlier open succeeded |
| Nsfdsuds.Program.OpenNsFds | nsfdsuds.c:506-520 | the loop opens the slots in order through each slot's own path, stores each result, stops at the first -1 (storing it) and leaves later slots untouched; it succeeds exactly when all six opened |
| Namespaces.OpenFromEmpty | nsfdsuds.c:506-520 | from the initial all-absent slots the loop fills slots 0..k-1 with open descriptors and leaves k..5 at -1, k being the first failing slot |
| Args.FindMode | nsfdsuds.c:149-154 | the linear search returns the first table entry equal to the argument, or the table size when none is |
| Args.CheckArgs | nsfdsuds.c:131-170 | over NUL-free byte strings: success exactly when argc >= 3, argv[0] is not null, argv[1] is byte for byte "--client" or "--server" and strlen(argv[2]), a count of bytes, is below the sun_path size of 108; then name = argv[0], socket_path = argv[2] and the matching mode is selected |
| Args.CheckArgsErrorOrder | nsfdsuds.c:135-159 | a missing program name is reported before the count, and the count before the mode |
| Codec.Validate | nsfdsuds.c:311-330 | the descriptors are taken only when every check passes, and then they are the record's data |
| Codec.AcceptsExactly | nsfdsuds.c:311-327 | the receiver accepts exactly a read of at least one byte with a SOL_SOCKET/SCM_RIGHTS record of length CMSG_LEN(sizeof nsfds) |
| Codec.ChecksInOrder | nsfdsuds.c:311-322 | a short read is rejected before the record is looked at, and a wrong level or type before the length |
| Codec.RejectsOtherCounts | nsfdsuds.c:323-327 | a rights record carrying any number of ints other than six is rejected for its length |
| Codec.TagIgnored | nsfdsuds.c:311-330 | the in-band byte's value is never checked |
| Codec.RoundTrip | nsfdsuds.c:359-379 | the message send_fds builds (tag 44, SOL_SOCKET, SCM_RIGHTS, CMSG_LEN of six ints, the slots in order) passes every receiver check and decodes to the same slots |
| Nsfdsuds.Program.SendFds | nsfdsuds.c:347-392 | the message sent encodes the current slots, and the result is success exactly when sendmsg sent at least the in-band byte |
| Nsfdsuds.Program.RecvFds | nsfdsuds.c:283-345 | the slots are overwritten with the record's data exactly when all three checks pass, and are otherwise unchanged; success exactly when they pass and argc < 4; execv is reached exactly when they pass and argc >= 4 |
| Protocol.ServeByStep | nsfdsuds.c:407-456 | the command loop takes one pass of the switch per read: it returns where the pass returns and otherwise reads again from the state the pass leaves |
| Protocol.Serve | nsfdsuds.c:394-458 | the command loop never uses more reads or sends than it was given, and every finished session used at least one read |
| Protocol.ReadErrorFails | nsfdsuds.c:410-417 | a read returning -1 ends the session with failure and no send |
| Protocol.DuplicateStartFails | nsfdsuds.c:425-432 | start while already started fails at once, with no send |
| Protocol.ErrorAndUnknownFail | nsfdsuds.c:419-456 | the error command and every byte other than the four commands fail at once, with no send |
| Protocol.EofRepeatsCommand | nsfdsuds.c:410-419 | a 0-byte read is not rejected; the switch runs on the byte cmd still holds |
| Protocol.StartedNeverPreStartFault | nsfdsuds.c:434-447 | once started, the loop never reports end or fds before start |
| Protocol.PreStartRejected | nsfdsuds.c:434-447 | before start, a read that yields end or fds ends the session on that read with the matching fault and no send, whatever follows |
| Protocol.PreStartFaultsSendNothing | nsfdsuds.c:434-447 | end or fds before start fails on the first read, and no send is issued |
| Protocol.FdsThenEndServed | nsfdsuds.c:434-452 | once started, k fds commands with successful sends followed by end are served after exactly k sends |
| Protocol.ScriptServed | nsfdsuds.c:425-452 | start, k fds and end, with successful sends, are served after exactly k sends and k + 2 reads |
| Protocol.ReceiverScriptServed | nsfdsuds.c:234 | the receiver's script {start, fds, end} with a successful send is served after exactly one send and three reads |
| Protocol.FailedSendStops | nsfdsuds.c:442-452 | every fds after start triggers one send, and the first failed send ends the session with failure at once |
| Protocol.ServedShape | nsfdsuds.c:394-458 | a served session saw no read error, exactly start, then one fds per send, then end, and every send succeeded |
| Nsfdsuds.Program.Dispatch | nsfdsuds.c:413-456 | one pass of the switch on a read's outcome does what Step says, and calls send_fds with the encoding of the current slots exactly when the pass sends |
| Nsfdsuds.Program.ServeClient | nsfdsuds.c:394-458 | the loop ends as Serve says, and every message it sends encodes the current slots |
| Server.UnlinkSocketRv | nsfdsuds.c:584-601 | unlink_socket reports 0 when the path was removed or did not exist (ENOENT), and otherwise the errno |
| Server.Observe | nsfdsuds.c:475-577 | the stale removal counts as done exactly when unlink succeeded or failed with ENOENT (or left errno 0); the open count stops at the first -1; the namespace close succeeds exactly when every opened slot closed |
| Server.ConnectionRunChained | nsfdsuds.c:535-545 | serve_client runs only after accept succeeded |
| Server.NamespacesRunChained | nsfdsuds.c:506-545 | listen runs only after all six opens succeeded, and accept only after listen succeeded |
| Server.SocketRunChained | nsfdsuds.c:483-545 | bind runs only after socket succeeded, and the open loop only after bind succeeded |
| Server.ConnectionRunBrackets | nsfdsuds.c:535-553 | an accepted connection is closed after serve_client |
| Server.NamespacesRunBrackets | nsfdsuds.c:506-559 | the namespace set is released by close_nsfds after the connection is released, on every path past the open loop |
| Server.SocketRunBrackets | nsfdsuds.c:483-573 | the listening socket is closed after the namespace set is released, on every path past socket |
| Server.ConnectionRunOutcome | nsfdsuds.c:545-553 | the connection bracket succeeds exactly when serve_client did; a failed close of the client does not change that |
| Server.NamespacesRunOutcome | nsfdsuds.c:545-559 | the result of close_nsfds does not change the exit status |
| Server.SocketRunOutcome | nsfdsuds.c:545-573 | the socket bracket ends with the socket close and succeeds exactly when serve_client succeeded and that close succeeded |
| Server.ServerRunChained | nsfdsuds.c:475-545 | the set-up steps run in order, each only after the one before it succeeded, and the run stops setting up at the first failure |
| Server.ServerRunReports | nsfdsuds.c:475-577 | every recorded step carries what its call returned |
| Server.ServerRunBrackets | nsfdsuds.c:475-582 | every resource the holder acquires is released exactly once, in reverse order of acquisition; a run stopped inside serve_client still holds the path, the socket, the namespace set and the connection |
| Server.ServerRunBlocked | nsfdsuds.c:545 | a run whose inputs ran out stops inside serve_client: its last step is the unfinished session |
| Server.ServerRunExit | nsfdsuds.c:545-577 | server_mode succeeds exactly when serve_client succeeded and the listening socket closed; the client close, close_nsfds and the final unlink do not count |
| Server.UnlinkAfterSocketClose | nsfdsuds.c:562-577 | on every path past the initial unlink, unlink_socket is the last step, and it comes straight after the close of the listening socket whenever socket succeeded |
| Nsfdsuds.Program.AcceptAndServe | nsfdsuds.c:535-553 | accept, serve_client and the client close take the steps and give the exit of the connection bracket |
| Nsfdsuds.Program.WithNamespaces | nsfdsuds.c:506-559 | the open loop, listen, the connection and close_nsfds take the steps and give the exit of the namespace bracket; the slots end as the open loop and then close_nsfds leave them |
| Nsfdsuds.Program.WithSocket | nsfdsuds.c:483-573 | socket, bind, the namespace bracket and the socket close take the steps of the socket bracket; the slots are untouched when socket or bind failed |
| Nsfdsuds.Program.ServerMode | nsfdsuds.c:460-582 | server_mode takes the steps and gives the exit of ServerRun, so every lemma about ServerRun holds of it; the slots end as the open loop and close_nsfds leave them |
| Nsfdsuds.Program.ClientOfServer | nsfdsuds.c:229-250 | a short write of the three commands fails without touching the slots; otherwise the result is recv_fds's |
| Nsfdsuds.Program.ClientMode | nsfdsuds.c:172-227 | success exactly when socket, connect, the write and recv_fds succeeded, no exec was due and the final close succeeded: a failed close turns success into failure |
| Nsfdsuds.Handoff | nsfdsuds.c:283-458 | a holder serving the receiver's script with a successful send, and a receiver fed the message sent, end with the receiver holding the holder's slots, slot for slot |

## Left out

- The system calls themselves (socket, bind, listen, accept, connect, read, write, recvmsg, sendmsg, open, close, unlink): only the values they return are modelled, as inputs.
- execv and process-image replacement: only "argc < 4 means success without exec, and an exec that returns means failure" is modelled.
- The errno save-and-restore around each call, every fprintf/strerror diagnostic and usage(): they only log.
- The byte layout of msghdr and cmsghdr, CMSG_SPACE padding and alignment: the control message is a record.
- The kernel's renumbering of passed descriptors: the receiver gets the sent ints unchanged.
- main's dispatch to the selected mode and the `client` field of the program record: the connection is implicit in the read, write and send inputs.
- The socket set-up inside client_mode: socket and connect are modelled only by their results.
- Protocol.Serve: the read and send results are finite sequences, so running out of them yields `Unfinished`. The program itself would block or keep reading; `Unfinished` has no counterpart in the source.
- Nsfdsuds.Program.ServerMode: a run whose inputs run out stops at the session with exit `Blocked`. This is the same artefact of finite inputs.
- Nsfdsuds.Program.Dispatch: serve_client's switch is a method of its own, called once per read by ServeClient's loop; the order of reads, checks and sends is the same.
- Nsfdsuds.Program.ServerMode: server_mode's single body is split into nested methods, one per clean-up bracket. The order of the calls and of the clean-up is the same.
- Nsfdsuds.Program.RecvFds: requires that a control record is present once a byte arrived. recv_fds dereferences CMSG_FIRSTHDR without a null check, so the source has no behaviour to model when it is absent.
- Nsfdsuds.Program.ClientOfServer: carries the same requirement, for the same reason.
- Nsfdsuds.Program.ClientMode: carries the same requirement, for the same reason.
- Codec.Validate: carries the same requirement, for the same reason.
