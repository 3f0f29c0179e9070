# qemu-bmc verification model

A Dafny model of the stateful parts of qemu-bmc, a baseboard management controller for QEMU
virtual machines, with proofs over all inputs, all runs and all interleavings.
`dafny verify dfyconfig.toml` checks it.

Methods on classes and methods with loops follow the imperative Go code; each is proved equal to
a specification function, and the theorems are lemmas about those functions.

| modules | cover |
|---|---|
| ProcessManager, ProcessProtocol | the QEMU child process: the lock-held sections as methods, and every interleaving of Start, Stop, Kill, WaitForExit, SetMedia callers with the monitor goroutines and with child exits |
| BootRaces | a power-on in steps, with SetBootOverride calls from elsewhere in between |
| Machine, MachineRuns | process-mode Reset and the one-shot boot override over that process manager; what resets and runs of them launch |
| QemuArgs | validation, defaults, command line and boot override on QEMU arguments |
| Bytes, Crypto, IpmiMessage, AesCbc | little-endian fields, checksums, abstract primitives, IPMI messages, the AES-CBC payload |
| RmcpPlus, RmcpPlusServer, IpmiServer | the RMCP+ packet handlers as functions, the session objects and handlers as classes and methods, the UDP receive loop |
| SessionRuns, Handshake, HandshakeRuns, SealedChannel | what any sequence of datagrams keeps, Open Session and RAKP agreement, the encrypted channel against the clear one |
| VmProtocol, VmServer | the OpenIPMI VM wire protocol, its stream reader and connection loop |
| Transport | one request over IPMI v1.5, clear RMCP+, sealed RMCP+ and the VM protocol |
| Accounts, AccountMap, UserCommands, AccountRaces | the user slots, the finite map they refine, the IPMI user commands on them, and those commands that take two lock-held sections |
| TaskIds, FirmwareTasks, FirmwareRuns | Redfish firmware updates: ids, lock-held sections, every interleaving of update goroutines with resets |
| Bios, BiosRaces, BiosOutcomes | live and pending BIOS attributes, sequentially, under two and under any number of concurrent PATCH requests |

Conventions. A byte is an integer in 0..255 and 32-bit counters wrap explicitly. HMAC-SHA1, MD5
and AES are fields of a value `Crypto`, of which only output sizes and decryption inverting
encryption are known. Random draws, clock outcomes, QMP answers, signal results and the moments
at which a child exits are parameters, so every theorem holds for all of them. The commands below
`handleIPMICommand` are one arbitrary function of state, network function, command and data. A Go
panic is an outcome: it stops the receive loop.

## Where the code differs from what one would expect

These statements are proved as the code has them.

- `SetUserName` does not look at other slots, so names stay unique under the account service but
  not under the in-band rename (`AccountMap.SetUserNameKeepsUniqueIff`, `SetUserNameDuplicateHides`).
- A dangling final `-boot` defeats the override: alone, it makes overriding not idempotent; before
  the injected options, it swallows `-qmp`. Both conditions are exact (`QemuArgs.LastOverrideWinsIff`,
  `QemuArgs.OverrideKeepsQmpIff`).
- A payload of 65536 bytes or more does not survive the 16-bit length field, exactly
  (`SealedChannel.OpenUndoesSealIff`).
- `Stop` looks again before it kills, so when the child it was called for exits and another caller starts
  the next one meanwhile, it kills that one (`ProcessProtocol.StopKillsLaterGeneration`; exactly when a
  signal reaches the command first checked: `ProcessProtocol.SignalReachesFirstIff`).
- `Stop` returns right after SIGKILL without waiting for the exit, so a PowerCycle can return nil
  and leave the old process running (`MachineRuns.RestartStartsIff`, `MachineRuns.PowerCycleMayKeepOldGeneration`).
- A start that fails because QMP never answered leaves a Once override set, so its target can be
  launched twice though it succeeds once (`MachineRuns.OnceLaunchedAtMostOnceIff` for the exact condition, `MachineRuns.FailedStartKeepsOnce` for a run).
- A reset request picks up pending BIOS settings and staged firmware whenever the machine returns nil,
  also for On of a machine that is already up, which resets nothing (`Bios.OnPicksUpWithoutPost`;
  exactly when: `Bios.PickUpComesWithPostIff`).
- An encrypted packet for a session that has no keys yet panics the server, under an exact condition
  (`SessionRuns.DatagramPanicsIff`, `SessionRuns.ServerStopsIff`).
- A Once setting that arrives while a power-on waits for QMP is consumed without ever being booted
  (`BootRaces.LateOnceIsLost`; exactly when: `BootRaces.OnceConsumedUnbootedIff`).
- Set User Access, enable and disable read and write a slot in two lock-held sections, so an update between
  the two can be undone (`AccountRaces.DisableIsUndone`; exactly when they are atomic:
  `AccountRaces.AccessCommandAtomicIff`, `AccountRaces.EnableCommandAtomicIff`).
- An empty default user name leaves an unnamed slot that is not zero, until the first create takes it
  (`AccountMap.NewTableWellFormedIff`).
- `Start` is given `Target` whatever `Enabled` says.
- A resent RAKP Message 1 overwrites the nonce and name of an authenticated session, so no
  invariant ties the session keys to those fields (`Handshake.ResentRakp1`, and `Handshake.TieSurvivesIff` for
  exactly when the tie survives); the handshake theorems assume none is sent in between.
- A PATCH to the BIOS settings is not atomic: two concurrent ones can leave a mixture that neither
  order produces, exactly when they dispute two attributes of which one needs no reset
  (`BiosRaces.SerializableIff`; for any number of requests `BiosOutcomes.ManySerializableIff`, which pairwise
  serializability does not imply: `BiosOutcomes.CycleIsNotSerial`).
- Task ids stop sorting in creation order at 10^12 (`TaskIds.CreationOrderSortedIff`).
- Comments in the code cite section 13.28.3 for the AES-CBC payload trailer; in IPMI v2.0 the
  AES-CBC payload is section 13.29.

## Model

| member | source | states |
|---|---|---|
| ProcessManager.ApplyMedia | internal/qemu/process.go:58-71 | the copy of the arguments has the medium appended to the first empty CD-ROM drive and nothing else changed |
| ProcessManager.MediaFillsOneDrive | internal/qemu/process.go:54-71 | inserting a medium changes the first empty CD-ROM drive and no other argument, after which that drive is not empty |
| ProcessManager.Manager.Start | internal/qemu/process.go:83-105 | refused while running; otherwise launches the arguments with medium and boot target in force, with a fresh exit channel, and a failed launch changes no process state |
| ProcessManager.Manager.Monitor | internal/qemu/process.go:107-114 | reaps the child, clears the flag, then closes that generation's channel |
| ProcessManager.Manager.Stop | internal/qemu/process.go:116-140 | SIGTERM to the running child, a bounded wait, SIGKILL on timeout without a second wait, each recorded as delivered; nil at once when not running |
| ProcessManager.Manager.Kill | internal/qemu/process.go:142-159 | SIGKILL delivered to the running child and to nothing else, or an error and no signal; nil at once when not running |
| ProcessManager.Manager.WaitForExit | internal/qemu/process.go:167-178 | reports an exit only through the channel current when the wait began |
| ProcessManager.StartWhileRunning | internal/qemu/process.go:83-90 | Start on a running manager changes nothing and is no error |
| ProcessManager.WaitMeansStopped | internal/qemu/process.go:167-178 | after a wait that reported the exit, nothing is running |
| ProcessProtocol.EveryInterleaving | internal/qemu/process.go:83-178 | the process invariant holds after every schedule of lock-held sections, monitor steps, callers and child exits |
| ProcessProtocol.LifecycleSafety | internal/qemu/process.go:83-178 | every monitor about to close its channel finds it open, at most one child is unreaped, a running manager has exactly one in-flight monitor owning its command and channel, a closed current channel means not running |
| ProcessProtocol.SignalsReachCurrentChild | internal/qemu/process.go:116-159 | in every interleaving, a signal that is delivered goes to the running generation's child, the command of the latest check before it, never to one already reaped |
| ProcessProtocol.SignalReachesFirstIff | internal/qemu/process.go:116-159 | a signal delivered for a Stop or Kill goes to the command that call checked first exactly when that command has not been reaped |
| ProcessProtocol.NilMeansSeenTo | internal/qemu/process.go:116-159 | in every reachable state, a Stop that returned nil after finding a command running has sent it SIGTERM, and it has been reaped or sent SIGKILL; a Kill that did has sent SIGKILL |
| ProcessProtocol.StopKillsLaterGeneration | internal/qemu/process.go:116-159 | a run in which one Stop, called for the first child, SIGKILLs the second and returns nil |
| ProcessProtocol.NilWaitIsReal | internal/qemu/process.go:167-178 | in every reachable state, a WaitForExit that returned nil did so on the closed channel of a generation whose monitor is done and whose child has been reaped; anything running is newer |
| ProcessProtocol.WaitEnds | internal/qemu/process.go:167-178 | a wait ends well exactly on a closed channel, and a timeout is an error |
| ProcessProtocol.CallsStay | internal/qemu/process.go:116-178 | a call stays what it is, on the command it first checked, and what it has returned |
| ProcessProtocol.CallsBegin | internal/qemu/process.go:116-178 | Stop and Kill return nil at once exactly when nothing is running, and otherwise turn to the running command; a wait takes the current channel |
| ProcessProtocol.FailedSignalIsError | internal/qemu/process.go:131-158 | a signal that cannot be delivered is the call's error; SIGTERM comes from Stop's first check, SIGKILL from Kill's |
| ProcessProtocol.CallersNeverStuck | internal/qemu/process.go:116-178 | a call that has not returned can take a step |
| ProcessProtocol.StartStarts | internal/qemu/process.go:83-105 | in every reachable state, Start does nothing while a child runs; otherwise it launches one with target and medium in force, a monitor and a fresh channel, or fails and leaves nothing running |
| ProcessProtocol.ChildMayExit | internal/qemu/process.go:107-109 | a live child can exit at any time, of itself, whoever holds the lock |
| ProcessProtocol.MediaLasts | internal/qemu/process.go:48-105 | setting a medium changes nothing else, and whatever runs next it stays the medium in force, which the next start gives its child |
| ProcessProtocol.ReportedExitIsReal | internal/qemu/process.go:167-178 | a wait that reports an exit took the channel of a generation that has been reaped and cleared; anything running is newer |
| ProcessProtocol.ClearedBeforeClose | internal/qemu/process.go:107-114 | when a channel is closed it was open, and the manager is no longer running that generation |
| ProcessProtocol.InitialChannelStaysOpen | internal/qemu/process.go:74-81 | the constructor's channel is never closed |
| ProcessProtocol.MonitorNeverStuck | internal/qemu/process.go:107-114 | a monitor that is not done can step unless its child is still alive |
| ProcessProtocol.ReachableIsConsistent | internal/qemu/process.go:83-178 | whenever no monitor is between reaping and clearing, the state meets the sequential contract of the Manager class |
| Machine.Machine.Reset | internal/machine/machine.go:224-285 | process-mode reset for every reset type, with the effects, errors and override consumption of each branch |
| Machine.Machine.SetBootOverride | internal/machine/machine.go:320-341 | stores a valid override, refuses an invalid one unchanged |
| Machine.Machine.ConsumeBootOnce | internal/machine/machine.go:344-351 | turns Once into Disabled with target None, leaves anything else |
| Machine.Machine.WaitForQMP | internal/machine/machine.go:299-310 | succeeds exactly when some poll before the deadline succeeds |
| Machine.Machine.ForceOffQemu | internal/machine/machine.go:289-296 | QMP quit and a wait, or Stop when quit fails |
| Machine.Machine.GetPowerState | internal/machine/machine.go:138-159 | a guest that shut down is stopped and reported Off |
| MachineRuns.ResetEffect | internal/machine/machine.go:224-285 | a reset launches at most one generation, with the target in force, and consumes the override exactly when it launched one and returned nil |
| MachineRuns.ForceOffOutcome | internal/machine/machine.go:245-296 | when ForceOff returns nil, what is running afterwards and which signals were sent, in terms of QMP, signals and exits alone |
| MachineRuns.NilForceOffPowersOff | internal/machine/machine.go:245-296 | a nil ForceOff leaves nothing running, or the running command sent SIGKILL; with QMP and SIGTERM both failing it is an error |
| MachineRuns.ShutdownOutcome | internal/machine/machine.go:251-258 | GracefulShutdown is an error exactly when the powerdown is refused, signals nothing, and leaves a child that does not exit in time |
| MachineRuns.OnOutcome | internal/machine/machine.go:225-244 | On and ForceOn: nil on a running machine, otherwise one launch, and nil exactly when it started and QMP answered |
| MachineRuns.InPlaceOutcome | internal/machine/machine.go:248-284 | ForceRestart answers as QMP does and changes nothing here; an unsupported type is an error |
| MachineRuns.RestartNilIff | internal/machine/machine.go:260-296 | exactly when a GracefulRestart or PowerCycle returns nil, in terms of QMP, signals, exits and the new start alone |
| MachineRuns.RestartSignals | internal/machine/machine.go:260-296 | exactly which signals a GracefulRestart or PowerCycle sends; a child still up after the first wait is sent SIGKILL if that can be done |
| MachineRuns.PowerStateOutcome | internal/machine/machine.go:138-159 | On exactly while a child runs whose guest has not shut down; such a child is stopped, any other left alone |
| MachineRuns.OverrideAccepted | internal/machine/machine.go:320-341 | exactly five targets and three modes of enabling are accepted |
| MachineRuns.RestartAfterExitStartsOne | internal/machine/machine.go:260-281 | a GracefulRestart or PowerCycle that returns nil after an observed exit started exactly one generation with the target then in force, which is still running unless it exited while QMP was polled |
| MachineRuns.RestartStartsIff | internal/machine/machine.go:260-281 | a GracefulRestart or PowerCycle that returns nil starts a generation if and only if the machine was down, a wait reported the exit, or the child exited before the power-on looked |
| MachineRuns.PowerCycleMayKeepOldGeneration | internal/machine/machine.go:271-296 | both signals delivered, no second wait: a nil PowerCycle that started nothing |
| MachineRuns.OnceReachesOneStart | internal/machine/machine.go:224-351 | over any run until the override is set again, a Once setting reaches at most one successful start, which disables it; Continuous never changes |
| MachineRuns.LaunchTargets | internal/machine/machine.go:224-351 | every launch in such a run got the set target or, once consumed, none |
| MachineRuns.LaunchAnswers | internal/machine/machine.go:224-310 | a reset that launches a generation returns nil exactly when QMP answers it |
| MachineRuns.OnceLaunchesCount | internal/machine/machine.go:224-351 | over any run until the override is set again, the launches under Once are its successful start, if any, plus every launch QMP never answered |
| MachineRuns.OnceLaunchedAtMostOnceIff | internal/machine/machine.go:224-351 | a Once target is launched at most once exactly when no launch under it goes unanswered, or one does and no start succeeds |
| MachineRuns.FailedStartKeepsOnce | internal/machine/machine.go:225-244 | a run in which it is launched twice: a start that fails on QMP leaves Once set |
| BootRaces.StepsArePowerOn | internal/machine/machine.go:225-244 | the steps of a power-on, undisturbed, are the power-on of Machine |
| BootRaces.OnceConsumedUnbootedIff | internal/machine/machine.go:225-244 | in every reachable state, a Once setting that a power-on consumes has not been and will never be booted exactly when it was set after that power-on read its target |
| BootRaces.BooksFollow | internal/machine/machine.go:225-244 | settings are numbered as they are accepted and consumed, and counted as booted exactly when launched |
| BootRaces.LateOnceIsLost | internal/machine/machine.go:225-244 | a run in which a Once set while QMP is polled is consumed unbooted |
| QemuArgs.ValidateArgs | internal/qemu/args.go:24-44 | the error of the first forbidden argument, or none exactly when there is no such argument |
| QemuArgs.ApplyDefaults | internal/qemu/args.go:58-73 | appends exactly the default pairs whose flag is absent |
| QemuArgs.DefaultsIdempotent | internal/qemu/args.go:58-73 | user arguments stay a prefix, every default flag is present, a second application adds nothing |
| QemuArgs.BuildCommandLine | internal/qemu/args.go:84-116 | validation errors first, then arguments, defaults and the injected options in order |
| QemuArgs.ApplyBootOverride | internal/qemu/args.go:128-150 | rewrites every "-boot" pair, appends one if there was none, leaves arguments alone for an unmapped target |
| QemuArgs.LastOverrideWinsIff | internal/qemu/args.go:128-150 | override twice equals the last override alone, exactly unless the only "-boot" dangles at the end |
| QemuArgs.OverrideSelectsIff | internal/qemu/args.go:128-150 | every boot value becomes the chosen one and all other tokens stay in order, under exactly the same condition |
| QemuArgs.OverrideKeepsQmpIff | internal/qemu/args.go:84-150 | over a built command line the injected -qmp pair survives exactly unless the defaulted user arguments end in a dangling "-boot" |
| QemuArgs.LastOverrideWinsOnBuilt | internal/qemu/args.go:84-150 | over every built command line the last mapped override wins |
| QemuArgs.AcceptedIff | internal/qemu/args.go:24-44 | arguments are accepted exactly without "-qmp" and "-daemonize", a "-serial" that has a value, a serial0 chardev and a monitor on stdio |
| QemuArgs.BootTargets | internal/qemu/args.go:118-150 | which "-boot" value each target selects, and that others select none |
| QemuArgs.DefaultTokens | internal/qemu/args.go:46-73 | the four default pairs |
| QemuArgs.BuiltCommandLine | internal/qemu/args.go:84-116 | the control socket, display and serial tokens, token by token; a serial address without a colon is an error |
| QemuArgs.CutColonSplits | internal/qemu/args.go:96-106 | the serial address is split at its first colon |
| IpmiMessage.BuildIPMIResponseMessageWithSeq | internal/ipmi/rmcp.go:211-241 | header, checksum, body and checksum of a response; the 32-bit sum may wrap |
| IpmiMessage.ResponseChecksumsClose | internal/ipmi/rmcp.go:211-241 | both checksums bring the bytes they cover to zero modulo 256 |
| IpmiMessage.ResponseCorruptionShows | internal/ipmi/rmcp.go:211-241 | changing any one byte breaks the checksum covering it |
| IpmiMessage.RequestParses | internal/ipmi/rmcp.go:129-148 | parsing a well-formed request gives every field of it: addresses, network function and LUN, header checksum, sequence, command and data |
| IpmiMessage.ResponseReads | internal/ipmi/rmcp.go:211-241 | a console reads back netFn, command, code, data and sequence from a built response |
| IpmiMessage.RmcpRoundTrip | internal/ipmi/rmcp.go:42-73 | parsing an RMCP frame gives back class and payload |
| IpmiMessage.Message15Exact | internal/ipmi/rmcp.go:154-174 | the v1.5 length byte recovers the message exactly when it fits one byte |
| IpmiMessage.Ipmi15Parses | internal/ipmi/rmcp.go:76-126 | parsing a v1.5 packet recovers session header and message, with and without authentication code |
| IpmiMessage.ResponseOnWire | internal/ipmi/rmcp.go:211-241 | every byte of a response but its checksums |
| IpmiMessage.Ipmi15AcceptsIff | internal/ipmi/rmcp.go:76-126 | exactly which v1.5 packets the parser accepts |
| IpmiMessage.Ipmi15OnWire | internal/ipmi/rmcp.go:154-205 | a v1.5 reply byte by byte, with what its MD5 code covers |
| IpmiMessage.RmcpAcceptsIff | internal/ipmi/rmcp.go:42-58 | exactly which RMCP frames are accepted |
| IpmiMessage.RmcpOnWire | internal/ipmi/rmcp.go:60-73 | the four bytes before the payload of an RMCP frame |
| AesCbc.PadPayload | internal/ipmi/rmcp_plus.go:544-555 | the in-place fill equals the specified trailer |
| AesCbc.PadShape | internal/ipmi/rmcp_plus.go:544-555 | 1 to 16 bytes of padding, aligned to 16, the last counting the ones before it |
| AesCbc.UnpadStripsCount | internal/ipmi/rmcp_plus.go:557-568 | unpadding yields m exactly when the data is m, some bytes and their count |
| AesCbc.CbcRoundTrip | internal/ipmi/rmcp_plus.go:495-542 | block chaining decrypts what it encrypts, for every key, IV and whole number of blocks |
| AesCbc.PayloadRoundTrip | internal/ipmi/rmcp_plus.go:495-568 | decrypting an encrypted message gives the message, for every message and IV |
| AesCbc.DecryptShortens | internal/ipmi/rmcp_plus.go:519-568 | decryption never yields more than the data less IV and count byte |
| AesCbc.PayloadOnWire | internal/ipmi/rmcp_plus.go:495-516 | the IV in the clear, then each padded block ciphered over the block before it, under the first 16 bytes of the key |
| AesCbc.DecryptErrors | internal/ipmi/rmcp_plus.go:519-568 | which lengths fail, and how |
| Bytes.XorIsBitwise | internal/ipmi/rmcp_plus.go:495-542 | the masking of a block is bitwise exclusive or |
| Bytes.FieldsAreLittleEndian | internal/ipmi/rmcp_plus.go:483-492 | 16- and 32-bit fields are little-endian, written and read |
| RmcpPlus.PacketParses | internal/ipmi/rmcp_plus.go:483-492 | the session header of a wrapped packet reads back, its length modulo 2^16 |
| RmcpPlus.HeaderOnWire | internal/ipmi/rmcp_plus.go:483-492 | the session header, byte by byte |
| RmcpPlus.HeaderReads | internal/ipmi/rmcp_plus.go:70-98 | where each header field is read from |
| RmcpPlus.PayloadTypeBits | internal/ipmi/rmcp_plus.go:383-409 | bit 7 of the payload type means encrypted, bit 6 authenticated |
| RmcpPlus.Dispatch | internal/ipmi/rmcp_plus.go:70-98 | each payload type and session id goes to its handler; others fail unchanged |
| RmcpPlus.HandshakeFailures | internal/ipmi/rmcp_plus.go:100-272 | requests too short, unknown sessions and failed draws change nothing |
| RmcpPlusServer.SessionManager.CreateSession | internal/ipmi/session.go:46-72 | a fresh session under the drawn id, or nothing changed when a draw fails |
| RmcpPlusServer.SessionManager.GetSession | internal/ipmi/session.go:75-80 | the session stored under the id |
| RmcpPlusServer.SessionManager.RemoveSession | internal/ipmi/session.go:83-87 | only the id's entry goes |
| RmcpPlusServer.HandleOpenSession | internal/ipmi/rmcp_plus.go:100-165 | the handler's reply and whole session map for every payload and draw |
| RmcpPlusServer.HandleRAKPMessage1 | internal/ipmi/rmcp_plus.go:178-260 | reply and session map, including short payloads, unknown sessions and refused names; the session takes the new fields even when the name is refused |
| RmcpPlusServer.HandleRAKPMessage3 | internal/ipmi/rmcp_plus.go:262-356 | reply and session map, including short payloads, unknown sessions and wrong codes |
| RmcpPlusServer.SealPacket | internal/ipmi/rmcp_plus.go:451-466 | pad bytes, pad length, next header and truncated HMAC after the packet |
| RmcpPlusServer.HandleEncryptedIPMI | internal/ipmi/rmcp_plus.go:383-469 | reply, session map and world of an in-session request; an unkeyed encrypted packet panics |
| RmcpPlusServer.HandleRMCPPlusMessage | internal/ipmi/rmcp_plus.go:70-98 | dispatch on payload type and session id |
| IpmiServer.Server.HandleMessage | internal/ipmi/server.go:77-114 | dispatch between ASF, IPMI v1.5 and RMCP+, with reply, sessions and world |
| IpmiServer.PingPong | internal/ipmi/server.go:117-154 | the pong, byte by byte, for a presence ping only |
| IpmiServer.NotHandled | internal/ipmi/server.go:77-114 | datagrams of another version or class fail unchanged |
| IpmiServer.V15Answer | internal/ipmi/server.go:77-114 | a v1.5 message reaches the commands and is answered under its own header; a bad one fails unchanged |
| IpmiServer.Server.ServeAll | internal/ipmi/server.go:50-74 | the receive loop cuts each datagram to its 1024-byte buffer, folds them in order and skips failed ones |
| SessionRuns.DatagramKeepsInvariant | internal/ipmi/rmcp_plus.go:70-165 | one datagram keeps the session invariant and changes at most the session it addresses |
| SessionRuns.RunKeepsInvariant | internal/ipmi/server.go:50-74 | over any run: ids are keys, name length matches, suite 3, authenticated exactly when keyed, K1 and K2 derived from the SIK |
| SessionRuns.DatagramPanicsIff | internal/ipmi/rmcp_plus.go:383-437 | over sessions of the invariant, a datagram panics exactly when it is an encrypted IPMI packet for a known unauthenticated session, long enough to reach decryption |
| SessionRuns.ServerStopsIff | internal/ipmi/server.go:50-74 | a run stops exactly when some datagram in it met the sessions in such a state |
| SessionRuns.OutboundStep | internal/ipmi/rmcp_plus.go:383-481 | a session's outbound number moves by one exactly on a reply inside it, and restarts when its id is granted |
| SessionRuns.OutboundCountsReplies | internal/ipmi/rmcp_plus.go:383-481 | over any run the number is the count of replies since the grant modulo 2^32 |
| SessionRuns.ReplyCarriesItsNumber | internal/ipmi/rmcp_plus.go:383-481 | the n-th reply carries n on the wire and the console's session id; failures use no number |
| SealedChannel.SealShape | internal/ipmi/rmcp_plus.go:451-466 | pad of at most 3, four-byte alignment, pad length and next header in place, MAC over all of it |
| SealedChannel.OpenUndoesSealIff | internal/ipmi/rmcp_plus.go:383-492 | opening a sealed packet gives its message exactly when the payload fits 16 bits |
| SealedChannel.RequestOpens | internal/ipmi/rmcp_plus.go:383-437 | the server recovers any request a console seals |
| SealedChannel.SealedRefinesPlain | internal/ipmi/rmcp_plus.go:358-492 | the sealed path answers exactly when the clear path does, with the same state after, and opens to the same bytes exactly when they fit |
| Handshake.OpenSessionGrants | internal/ipmi/rmcp_plus.go:100-165 | a suite-3 request creates the session drawn, and the response carries tag, status, both ids and the three algorithms |
| Handshake.OpenSessionRefuses | internal/ipmi/rmcp_plus.go:100-176 | any other suite is refused with the status of the first bad algorithm, tag and console id, sessions unchanged |
| Handshake.Rakp1Agreement | internal/ipmi/rmcp_plus.go:178-260 | status 0 exactly for a name the handler has a password for; then the RAKP2 code is the console's own under that password and the session holds the console's inputs |
| Handshake.Rakp1RefusesBySlot | internal/ipmi/rmcp_plus.go:178-230 | status 0x0D exactly when the name is not the configured user's and its first slot, if any, has no password; the answer carries tag and console id |
| Handshake.Rakp1AnswersBySlot | internal/ipmi/rmcp_plus.go:178-260 | otherwise status 0 and the code under that slot's password, or under the configured one for the configured user |
| Handshake.SamePassword | internal/ipmi/rmcp_plus.go:178-307 | RAKP3 resolves the password RAKP1 used while users and name are unchanged |
| Handshake.Rakp3Agreement | internal/ipmi/rmcp_plus.go:262-356 | for any name, refused by RAKP1 or not: accepts exactly the code under the password it resolves; a refusal changes no session; acceptance leaves equal SIK, K1, K2 and a matching RAKP4 code |
| Handshake.Rakp3AnswersBySlot | internal/ipmi/rmcp_plus.go:262-356 | status 0 exactly for the code under the name's slot password, or the configured one if no slot has one; otherwise 0x0F; the answer carries tag and console id |
| Handshake.HandshakeCompletes | internal/ipmi/rmcp_plus.go:100-356 | Open Session, RAKP1, RAKP3 in order end with both sides holding the same keys |
| Handshake.Rakp2InputInjective | internal/ipmi/rmcp_plus.go:234-247 | equal RAKP2 HMAC inputs mean equal fields and name |
| Handshake.Rakp3InputInjective | internal/ipmi/rmcp_plus.go:285-295 | equal RAKP3 HMAC inputs mean equal fields and name |
| Handshake.SikInputInjective | internal/ipmi/rmcp_plus.go:306-316 | equal SIK inputs mean equal nonces, role and name |
| Handshake.ResentRakp1 | internal/ipmi/rmcp_plus.go:201-206 | to an authenticated session another RAKP1 changes its nonce, role and name but none of its keys; the SIK input stays the same exactly when all three repeat |
| Handshake.TieSurvivesIff | internal/ipmi/rmcp_plus.go:178-356 | for all primitives and passwords the SIK is still the HMAC of the session's fields after that, exactly when all three repeat |
| HandshakeRuns.ElsewhereKeepsSession | internal/ipmi/server.go:50-74 | traffic addressed elsewhere leaves a session as it is |
| HandshakeRuns.TrafficKeepsExchange | internal/ipmi/server.go:50-74 | any traffic, in the session or out of it, keeps what RAKP1 and RAKP2 exchanged, unless it is another RAKP1 for the session or a grant of its id |
| HandshakeRuns.InterleavedHandshake | internal/ipmi/rmcp_plus.go:178-356 | the agreement on the wire, with any traffic between RAKP1 and RAKP3 but another RAKP1 for the session, a grant of its id or a change of the users |
| VmProtocol.VmEscapeBytes | internal/ipmi/vm_protocol.go:53-63 | the loop computes the escape of every special byte |
| VmProtocol.VmUnescapeBytes | internal/ipmi/vm_protocol.go:67-81 | the loop computes unescape, with its error |
| VmProtocol.EscapeRoundTrip | internal/ipmi/vm_protocol.go:53-81 | unescape undoes escape and escaped bytes hold no message or command terminator |
| VmProtocol.EscapeInjective | internal/ipmi/vm_protocol.go:53-63 | different payloads escape differently |
| VmProtocol.UnescapeFailsIffDangling | internal/ipmi/vm_protocol.go:67-81 | unescape fails exactly on a dangling final escape byte |
| VmProtocol.VmChecksum | internal/ipmi/vm_protocol.go:85-91 | the wrapping sum gives the complement modulo 256 |
| VmProtocol.VmParseIPMIRequest | internal/ipmi/vm_protocol.go:96-124 | fields, or the error for a short message or bad checksum |
| VmProtocol.VmBuildIPMIResponse | internal/ipmi/vm_protocol.go:128-144 | sequence, packed netFn and LUN, command, code, data, checksum |
| VmProtocol.RequestRoundTrip | internal/ipmi/vm_protocol.go:96-124 | every well-formed request parses back to its fields |
| VmProtocol.ResponseParses | internal/ipmi/vm_protocol.go:96-144 | the parser accepts every built response of any length and recovers its fields |
| VmProtocol.SingleByteChangeRejected | internal/ipmi/vm_protocol.go:96-124 | changing any one byte of an accepted message gets it rejected |
| VmProtocol.EscapeOfByte | internal/ipmi/vm_protocol.go:53-63 | which bytes are escaped, and to what |
| VmProtocol.EscapeAppend | internal/ipmi/vm_protocol.go:53-63 | escaping goes byte by byte |
| VmProtocol.UnescapeOfPair | internal/ipmi/vm_protocol.go:67-81 | unescaping clears bit 4 of the byte after 0xAA and of no other |
| VmProtocol.ParseAcceptsIff | internal/ipmi/vm_protocol.go:96-124 | exactly the messages of four bytes or more that sum to zero |
| VmProtocol.ResponseOnWire | internal/ipmi/vm_protocol.go:128-144 | every byte of a response |
| VmServer.ReadMessage | internal/ipmi/vm_server.go:188-212 | the next frame or the end, and the unread rest, for any pattern of empty reads |
| VmServer.VMServer.HandleConnection | internal/ipmi/vm_server.go:69-90 | the connection loop computes the fold of the frames over state, capabilities and output |
| VmServer.FramingRoundTrip | internal/ipmi/vm_server.go:188-212 | any list of frames, encoded and read back under any cut into reads, is returned in order |
| VmServer.ConnectionFolds | internal/ipmi/vm_server.go:69-155 | a connection handles exactly the frames sent, in order |
| VmServer.OutputIsReplies | internal/ipmi/vm_server.go:127-166 | what is written is the encoding of one reply per answered frame |
| VmServer.ConversationRoundTrip | internal/ipmi/vm_server.go:69-212 | a peer reads back exactly the replies to its frames |
| VmServer.ControlCommands | internal/ipmi/vm_server.go:93-124 | a capabilities command is remembered and answered with NOATTN; others are ignored |
| VmServer.BadMessageDropped | internal/ipmi/vm_server.go:127-132 | a message that does not parse gets no reply and changes nothing |
| VmServer.ReadErrorFails | internal/ipmi/vm_server.go:69-90 | a read error ends the connection with an error |
| Transport.Over15 | internal/ipmi/rmcp.go:154-174 | a v1.5 request gets the command's answer when it fits the length byte |
| Transport.OverClear | internal/ipmi/rmcp_plus.go:358-381 | the same in the clear over RMCP+ |
| Transport.OverSealed | internal/ipmi/rmcp_plus.go:383-469 | the same inside a session, with any mix of encryption and authentication |
| Transport.OverVm | internal/ipmi/vm_server.go:127-155 | the same over the VM protocol, however the streams are cut |
| Transport.TransportsAgree | internal/ipmi/server.go:77-114 | all four give the same code, data, echoed netFn and sequence, and leave the same state |
| Transport.ExpectedNetFn | internal/ipmi/server.go:105-114 | the answer they agree on carries the odd network function of the request's pair |
| Accounts.State.CreateAccount | internal/bmc/state.go:277-302 | the slot array after a create, and the slot or error |
| Accounts.State.UpdateAccount | internal/bmc/state.go:305-334 | the slot array after an update, and the error |
| Accounts.State.DeleteAccount | internal/bmc/state.go:337-348 | the slot array after a delete, and the error |
| Accounts.State.Authenticate | internal/bmc/state.go:351-366 | reads the table only |
| Accounts.State.LookupUserByName | internal/bmc/state.go:224-231 | the least slot with the name, from slot 1 |
| Accounts.State.EnabledUserCount | internal/bmc/state.go:210-220 | the loop counts the enabled slots |
| Accounts.State.SetUserName | internal/bmc/state.go:140-148 | sets one slot's name, whatever the others hold |
| Accounts.State.SetUserPassword | internal/bmc/state.go:151-159 | sets one slot's password |
| Accounts.State.CheckPassword | internal/bmc/state.go:173-184 | equality with a non-empty stored password |
| Accounts.State.SetUserAccess | internal/bmc/state.go:199-207 | sets one slot's access |
| AccountMap.AccountsRefineMap | internal/bmc/state.go:82-348 | over every run from NewState, with any default user, the slots refine a map from names to accounts: same accounts, slots and errors; names unique, slot 1 free and unnamed slots zero in every table but the untouched one of an empty default user |
| AccountMap.NewTableWellFormedIff | internal/bmc/state.go:82-115 | the initial table is well formed exactly when the default user has a name |
| AccountMap.CreateRefines | internal/bmc/state.go:277-302 | create takes the least free slot of 2..15, or fails unchanged on an empty or taken name or a full table |
| AccountMap.UpdateRefines | internal/bmc/state.go:305-334 | update renames and changes one account, or fails unchanged |
| AccountMap.DeleteRefines | internal/bmc/state.go:337-348 | delete removes one account, or fails unchanged |
| AccountMap.FullIffCapacity | internal/bmc/state.go:277-302 | no free slot exactly when fourteen names exist |
| AccountMap.AuthenticateIff | internal/bmc/state.go:351-366 | exactly an enabled account of that name with that non-empty password |
| AccountMap.AuthenticateBySlot | internal/bmc/state.go:224-241 | over any table, the first slot with the name, from slot 1 on, decides |
| AccountMap.EnabledCountIsEnabledAccounts | internal/bmc/state.go:210-220 | the count is the number of enabled accounts |
| AccountMap.SetUserNameKeepsUniqueIff | internal/bmc/state.go:140-148 | the in-band rename keeps names unique exactly when no other slot holds the name or it is empty |
| AccountMap.SetUserNameDuplicateHides | internal/bmc/state.go:140-148 | a duplicate name made in band hides the later slot from authentication |
| UserCommands.HandleSetUserName | internal/ipmi/handler_user.go:77-92 | table and completion code |
| UserCommands.HandleGetUserName | internal/ipmi/handler_user.go:57-72 | sixteen zero-padded bytes, or the error code |
| UserCommands.HandleSetUserPassword | internal/ipmi/handler_user.go:101-163 | table and completion code of disable, enable, set and test |
| UserCommands.HandleSetUserAccess | internal/ipmi/handler_user.go:172-200 | table and completion code, flags changed only when asked |
| UserCommands.HandleGetUserAccess | internal/ipmi/handler_user.go:17-52 | slot counts and access flags of the channel and user |
| UserCommands.SetThenGetUserName | internal/ipmi/handler_user.go:57-92 | Get returns the sixteen bytes last Set for the slot in the low six bits, other slots untouched |
| UserCommands.SetThenTestPassword | internal/ipmi/handler_user.go:101-163 | Test succeeds exactly for the password last Set, up to trailing zeros, never for an empty one |
| UserCommands.SetThenGetUserAccess | internal/ipmi/handler_user.go:17-52 | Get User Access reads back the privilege and the three flags last Set, behind the slot counts |
| UserCommands.AccessBits | internal/ipmi/handler_user.go:17-52 | of any slot, however written: the privilege in the low four bits of the last byte and each flag in its own bit |
| UserCommands.EnableCommands | internal/ipmi/handler_user.go:116-138 | enable and disable set the one flag |
| UserCommands.CommandErrors | internal/ipmi/handler_user.go:17-200 | the completion codes of short requests and bad ids, which change nothing |
| UserCommands.TrimIs | internal/ipmi/handler_user.go:77-92 | trimming takes off the trailing zeros and nothing else |
| UserCommands.PasswordCommandIsUpdate | internal/ipmi/handler_user.go:101-163 | in-band password and enable commands are the account service's update on named slots; on unnamed ones, which that update refuses, they succeed, leave every account alone, and keep the table well formed exactly when they change nothing |
| UserCommands.AccessCommandKeepsCredentials | internal/ipmi/handler_user.go:172-200 | Set User Access changes no name, password or enable flag |
| AccountRaces.AccessCommandAtomicIff | internal/ipmi/handler_user.go:172-200 | whatever happens between its two sections, Set User Access has its atomic effect exactly when the user was not enabled or disabled in between |
| AccountRaces.EnableCommandAtomicIff | internal/ipmi/handler_user.go:116-138 | enable and disable have theirs exactly when nothing else of the access changed in between |
| AccountRaces.DisableIsUndone | internal/ipmi/handler_user.go:172-200 | a Redfish disable between the two sections of Set User Access is undone: who could authenticate before the disable can again |
| AccountRaces.WriteAfterDelete | internal/ipmi/handler_user.go:172-200 | a write to a slot deleted in between gives nobody access, and keeps the table well formed exactly when it writes no access |
| TaskIds.TaskIdInjective | internal/redfish/handler_update.go:318-336 | different counters give different ids, of any size |
| TaskIds.TaskIdFormat | internal/redfish/handler_update.go:318-336 | "JID_" and at least twelve digits, no more than needed, that read as the counter |
| TaskIds.LessIff | internal/redfish/handler_update.go:358-367 | the order is lexicographic |
| TaskIds.IdOrder | internal/redfish/handler_update.go:318-367 | below 10^12 string order of ids is numeric order |
| TaskIds.OverflowBreaksOrder | internal/redfish/handler_update.go:318-367 | the first number with a digit too many sorts before earlier ones |
| TaskIds.CreationOrderSortedIff | internal/redfish/handler_update.go:318-367 | the ids of n tasks are sorted exactly when n is below 10^12 |
| TaskIds.SortingGivesCreationOrder | internal/redfish/handler_update.go:358-367 | any sorted arrangement of those ids is creation order, whatever the map's order |
| FirmwareTasks.Server.Create | internal/redfish/handler_update.go:318-336 | a new entry under the next id |
| FirmwareTasks.Server.Update | internal/redfish/handler_update.go:338-348 | changes the entry named, if any |
| FirmwareTasks.Server.ActivateStagedFirmware | internal/redfish/server.go:267-277 | installs and unstages the component's staged version, if any |
| FirmwareTasks.Server.RunFirmwareUpdate | internal/redfish/handler_update.go:235-274 | final state, messages, staging and percent from the updater's outcome, a failure keeping the last report; every other entry untouched |
| FirmwareTasks.Run | internal/firmware/firmware.go:95-121 | the package or failure, and exactly the percentages reported up to a mismatch, a cancellation or the end |
| FirmwareTasks.OutcomeIff | internal/firmware/firmware.go:95-121 | an update succeeds exactly with a package fetched, targets empty or naming its component, and no flash step cancelled |
| FirmwareTasks.ProgressByStep | internal/firmware/firmware.go:95-121 | the percentages reported, by the flash step at which the update is cancelled |
| FirmwareTasks.ProgressRises | internal/firmware/firmware.go:95-121 | reports rise and stay below 100 |
| FirmwareRuns.EveryInterleaving | internal/redfish/handler_update.go:235-274 | the invariant holds after every schedule of requests, goroutine steps and resets |
| FirmwareRuns.StepsHappen | internal/redfish/handler_update.go:140-182 | a request adds an entry and a goroutine, and every goroutine can move |
| FirmwareRuns.TaskLife | internal/redfish/handler_update.go:235-274 | from any reachable state on, an entry only moves New, Running, Completed or Exception, percent never falls, a terminal entry never changes |
| FirmwareRuns.TaskOutcomes | internal/redfish/handler_update.go:235-274 | percent 100 exactly when Completed; Completed has staged a package its targets admit; Exception has staged none |
| FirmwareRuns.AloneMatchesUpdate | internal/redfish/handler_update.go:235-274 | a goroutine left alone stages exactly the updater's outcome and ends its entry as the sequential update does |
| FirmwareRuns.ActivationInstallsLastStaged | internal/redfish/server.go:259-277 | an activation installs the version last staged since the previous one and touches nothing else |
| FirmwareRuns.FreshTaskIds | internal/redfish/handler_update.go:318-336 | a new id names no existing entry, and the ids are exactly those handed out |
| FirmwareRuns.ListingIsCreationOrder | internal/redfish/handler_update.go:358-367 | in every reachable state with fewer than 10^12 entries, any sorted listing of the map's keys is creation order |
| Bios.Server.HandlePatchBiosSettings | internal/redfish/handler_bios.go:73-101 | a bad or empty body changes nothing; otherwise, by the registry's flag, an attribute that needs no reset is live and not queued, and one that does or is unknown is queued with its live value kept, in whatever order the loop met them |
| Bios.Server.HandleResetAction | internal/redfish/handler_actions.go:32-68 | status, machine, BIOS and firmware after a reset; the five types that leave the system on empty the pending layer when the machine returns nil, the other two and errors change nothing |
| Bios.ResetActionByType | internal/redfish/handler_actions.go:12-68 | the same by type on values, with the staged BIOS version installed and nothing else of the firmware changed |
| Bios.PickUpComesWithPostIff | internal/redfish/handler_actions.go:21-68 | a pick-up comes with a launched generation or an in-place reset exactly unless it was On or ForceOn of a running machine, ForceRestart of a stopped one, or a restart that never saw the old process go |
| Bios.OnPicksUpWithoutPost | internal/redfish/handler_actions.go:46-53 | On to a running machine resets nothing and still picks everything up |
| Bios.Server.ApplyPendingBiosSettings | internal/redfish/server.go:237-244 | pending attributes move into the live ones and are returned |
| Bios.Server.HandleManagerReset | internal/redfish/handler_managers.go:168-188 | answers 200, notes the time and activates BMC firmware only, for GracefulRestart only |
| Bios.TwoLayers | internal/redfish/handler_bios.go:73-101 | between requests, live overlaid with pending is the last-writer-wins map of all PATCHes over the defaults; nothing pending needs no reset |
| Bios.ShippedUntilRequested | internal/redfish/server.go:289-293 | whatever else is requested, an attribute no PATCH has named reads as the server ships it |
| Bios.LiveAsRequested | internal/redfish/server.go:237-244 | no-reset attributes always live as last requested; after a power-on reset everything does and nothing is pending |
| Bios.ServeIsHandlers | internal/redfish/handler_actions.go:32-56 | the requests of those runs are the handlers |
| Bios.AnyInterleaving | internal/redfish/server.go:185-244 | under any interleaving of lock-held sections the view is their last-writer-wins overlay and resets do not show in it |
| Bios.OrderDoesNotMatter | internal/redfish/handler_bios.go:85-96 | the sections of one PATCH have the same effect in every iteration order |
| BiosRaces.OneSectionIsAtomic | internal/redfish/server.go:185-203 | attributes that each side writes in one section all end with the same side's values |
| BiosRaces.SerializableIff | internal/redfish/handler_bios.go:73-101 | two concurrent PATCHes always end as if one came after the other, exactly when at most one attribute, or only reset-required ones, are disputed |
| BiosOutcomes.OutcomesAreMixtures | internal/redfish/handler_bios.go:73-101 | the views that any number of concurrent PATCHes can end in are exactly those with any writer's value for each attribute that needs no reset, and the others as in one order of the requests |
| BiosOutcomes.WovenView | internal/redfish/server.go:185-203 | those views are the server's, live overlaid with pending |
| BiosOutcomes.ManySerializableIff | internal/redfish/handler_bios.go:73-101 | they always end as in some order of the requests exactly when every such mixture is the overlay of one |
| BiosOutcomes.CycleIsNotSerial | internal/redfish/handler_bios.go:73-101 | three requests that are pairwise serializable, and together are not |

## Left out

- Sockets, accept loops, HTTP routing, JSON, TLS and noVNC; a request is a value, a connection a sequence of reads, read errors other than the end of the stream are one case, and write errors do not occur.
- The inside of SHA-1, MD5 and AES, and how random bytes are made.
- Authenticity of incoming RMCP+ packets: the code looks only at the trailer's length, so nothing is stated about request MACs.
- Response bodies of the Redfish handlers.
- Two resets at once: Machine and BootRaces take one power-on at a time; the process manager under several callers is in ProcessProtocol.
- Real time: a timeout is a choice between "exit observed" and "timed out".
- Chassis, channel, LAN, boot-option and Device ID codecs, and the other fields of `bmc.State`; they sit inside the arbitrary command function.
- A nil `bmc.State`, which the RAKP handlers also accept.
- The QMP client and its events, configuration, inventory, registries, ETags, legacy-mode machine control and media download.
- Redfish validation of names and passwords ahead of the account operations.
- Accounts.State.UpdateAccount: the source edits the slot through a pointer; the method edits a copy and writes it back under the same lock.
