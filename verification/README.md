# vRTM: launch control, VM table, channel and signed report

vRTM decides whether a measured virtual machine may launch, keeps a table of the machines it has seen,
answers requests over a framed XML-RPC channel, and writes signed reports. This project models those
four parts in Dafny and proves what they promise. `dafny verify dfyconfig.toml` checks everything.

## How the modules fit together

**The VM table.** `VmTable` holds the table class (`ServiceProcTable`) and one specification function per
locked operation; every method is proved to do what its function says. `TableRuns` puts these operations
into an interleaved state machine with the code's lock granularity: `StartApp` is a lookup, an add and an
update, then `cleanupService`; a cleaning call is one collect step and one step per removal. A run is any
sequence of labels from the empty table. `TableIdentity`, `CleanerSafety`, `CleanerPresence` and
`StatusHistory` prove properties of every run, with the counterexample runs built from `Scenarios`;
`CleanerBound` bounds the cleaner's rounds among other threads and `CleanerLoop` is the thread on its own;
`StatusRace` takes a status request apart into its check and its write; `Listener` maps libvirt events to table events and reads
a VM's status off its history; `HyperV` and `Drives` cover the Windows-only parts.

**The channel.** `Base64` is section 4 of RFC 4648 plus the program's length arithmetic. `XmlText` is a
printer and parser for elements, attributes and markup-free text; `XmlRpc` says what the XML-RPC documents
are and what walking them yields; `XmlRpcCodec` and `ArgOwnership` are the encoders and decoders themselves,
writing into buffers and argument slots; `RpcRoundTrip` composes both directions with the 4096-byte limits.
`TcpChannel` has the 12-byte header, a socket that takes or delivers arbitrary positive parts (and may
fail), and the two loops over it.

**The service.** `LaunchArgs` is the flag parser, `LaunchDecision` the policy decision, `Service` the server
(`StartApp`, `serviceRequest`, `process_request`, `handle_session`), `Exchange` one request and its answer
from a client to the server and back. `LaunchGate` is the proxy's use of it, from the proxy's four strings to
the id it reads back, and `StatusUpdate` the listener's, from a libvirt event to the table; `VerdictQuery` asks
for the verdict of a launch. `WireFormat` spells out what goes over the wire.

**The report.** `CanonicalXml` defines canonical octets, `CanonicalForms` the inclusive and the exclusive form
for documents with prefixes and their agreement without; `SignedReport` the three separately assembled texts
and the trees they are the texts of; `ReportWriter` writes them and states what a verifier checks.
`Namespaces` is the in-place tokenizer of namespace lists.

## What the model assumes

- In `TableRuns`, and so for removals, histories and Hyper-V, `UpdateAppStatus` is one step. The code checks and
  writes through a pointer it obtained under the lock but uses after releasing it
  (vrtm/src/vrtmcore/modtcService.cpp:1176-1200); `StatusRace` has the two steps.
- The removal by uuid in the Hyper-V clean-up is one step; the code finds the id and erases it under two locks
  (vrtm/src/vrtmcore/modtcService.cpp:184-194).
- `sleep` is not cut short by a signal.
- `generate_req_id` is one step, `cleanupService` is one step, thread creation succeeds, the clock does not
  run backwards.
- The build is the Linux one unless a member says otherwise; `Build` is a parameter where both matter.
- Memory allocation succeeds. Mounting and measuring commands report arbitrary exit codes, given as parameters
  (`Outcomes`), and so do the signing and certificate commands and the opening of the report's files (`Steps`).
  Hash and signature are arbitrary functions of algorithm and octets, and a TPM signs with the algorithm that
  belongs to its version.
- Bodies of the bounded string library are not part of the repository: `strcpy_s` of a source that does not
  fit leaves the empty string, `memcpy_s` of a source longer than its limit leaves zeros, `strnlen_s` stops at
  `MAX_LEN` = 4096.
- OpenSSL's treatment of malformed Base64 is not visible; the model rejects what section 4 of RFC 4648 does
  not define. libxml2 documents outside the modelled subset count as not parsing.
- libxml2 refuses to register an empty namespace prefix.

## Where the code does not do what one would expect

- One VM gets two entries if two launches of it both look it up before either adds it
  (`TableIdentity.RacingAddsDuplicate`, reachable by `TableIdentity.RacingAddsReachable`).
- A Docker entry that was collected for removal and is launched again before it is removed is removed while
  STARTED (`CleanerSafety.DockerRevivedIsRemoved`).
- A status request that was checked before and writes after a launch of the same VM is refused starts a VM that
  the policy "Enforce" does not allow (`StatusRace.RefusedAndStarted`). `StatusRace.EnforcedIff` says exactly
  which writes break the enforcement.
- The cleaner's last count and the reset of its flag are two steps; a refused launch between them leaves a
  CANCELLED entry that no cleaner will remove (`CleanerPresence.CleanerCanBeLost`). `CleanerPresence.UncoveredIff`
  says exactly which steps lose the cleaner; the other one is a status request for 0, which `atoi` also makes of
  a status that is no number (`CleanerPresence.StatusRequestNeedsCleaner`).
- A flag parsed as the value of an earlier flag is parsed again (`LaunchArgs.FlagAsValueIsTakenTwice`).
- Under enforcement, a policy with no hash or with one of more than 64 characters admits an image whose
  measurement file is empty (`LaunchDecision.EmptyMeasurementAdmitted`, `LaunchGate.EmptyMeasurementPasses`).
- A golden hash shorter than 64 characters never matches a measurement line that ends in a newline
  (`LaunchDecision.NewlineNeverMatches`).
- If racing launches gave one VM two entries, its removal from libvirt removes one and leaves the other
  (`StatusUpdate.ReportDomainEvent`).
- The Hyper-V clean-up counts a CANCELLED machine as made inactive although it leaves it alone
  (`HyperV.CountedButCancelled`). Its thread collects only machines that are not CANCELLED, so this needs a
  launch that is refused while the thread sleeps (`HyperV.RefusedWhileAsleep`); undisturbed, the counters are
  right (`HyperV.ReconcileActiveVms`).
- Of a signature only 256 bytes are read back; the report with a longer one is written, reported as a success
  and does not validate (`ReportWriter.LongSignatureFails`).
- The 4096-character limit cuts a string of more than 3072 characters on its way through Base64
  (`Base64.CappedRoundTrip`), and a document of 4096 bytes or more is sent as zeros (`RpcRoundTrip.CallRoundTrip`).

## Model

| member | source | states |
|---|---|---|
| TableRuns.EnforcementHolds | vrtm/src/vrtmcore/modtcService.cpp:215-268 | in every reachable state, on either build, for either instance type and any requested status numbers, an entry with policy "Enforce" that failed verification is CANCELLED |
| TableRuns.IdsStayFresh | vrtm/src/vrtmcore/vrtminterface.cpp:143-157 | while fewer than INT32_MAX requests were served, ids in the table, in launches and pending in cleaners were all handed out, and an id still to be added belongs to one launch only |
| TableRuns.LaunchesMoveStep | vrtm/src/vrtmcore/modtcService.cpp:1741-1778 | no step changes a launch except along its own phases, and a launch keeps its id, uuid and data |
| TableRuns.TableMovesStep | vrtm/src/vrtmcore/modtcService.cpp:124-157 | a step adds at most the entry of the launch that adds, and no step changes an entry's uuid or instance type |
| TableIdentity.TableIdentityHolds | vrtm/src/vrtmcore/modtcService.cpp:284-297 | without racing launches of one VM and before ids wrap: keys are positive and were handed out, every add really inserts, uuids are distinct, and the scan returns k if and only if entry k has that uuid |
| TableIdentity.AddInserts | vrtm/src/vrtmcore/modtcService.cpp:150-151 | an add never finds its key taken: the entry is there afterwards, as built |
| TableIdentity.ScanIsExact | vrtm/src/vrtmcore/modtcService.cpp:284-297 | with distinct uuids the scan is exact in both directions, 0 meaning that no entry has the uuid |
| TableIdentity.RacingAddsDuplicate | vrtm/src/vrtmcore/modtcService.cpp:1744-1756 | the race condition is exact: from any state with two racing adds, the two adds give one VM two entries |
| TableIdentity.RacingAddsReachable | vrtm/src/vrtmcore/modtcService.cpp:1744-1756 | such a state is reachable with two requests, for every uuid |
| CleanerSafety.RemovalIsSafe | vrtm/src/vrtmcore/modtcService.cpp:1208-1227 | whatever runs between a cleaner's collect and its removals, a VM entry it removes is at that moment CANCELLED and at least the maximum age old |
| CleanerSafety.PendingSafeIff | vrtm/src/vrtmcore/modtcService.cpp:245-259 | on either build and for either instance type, a step keeps all pending removals safe if and only if it is not an update that revives an entry waiting to be removed |
| CleanerSafety.PendingSafeHolds | vrtm/src/vrtmcore/modtcService.cpp:1208-1227 | hence in every run without reviving updates all pending removals are safe, Docker included |
| CleanerSafety.PendingVmSafeHolds | vrtm/src/vrtmcore/modtcService.cpp:1178-1181 | for VM entries on Linux this needs no condition on the run |
| CleanerSafety.DockerRevivedIsRemoved | vrtm/src/vrtmcore/modtcService.cpp:249-252 | a run in which a relaunched Docker entry that is STARTED is removed |
| StatusRace.EnforcedIff | vrtm/src/vrtmcore/modtcService.cpp:1176-1200 | with check and write as two steps, a step breaks the enforcement if and only if it is a write of a status other than CANCELLED to an entry whose launch was refused since the check |
| StatusRace.CancelledStaysIff | vrtm/src/vrtmcore/modtcService.cpp:1176-1200 | a step keeps a CANCELLED Linux VM entry CANCELLED if and only if it is no such write to it |
| StatusRace.EnforcementHoldsUnlessOvertaken | vrtm/src/vrtmcore/modtcService.cpp:1176-1200 | in every run in which no refusal comes between a request's check and its write to the same entry, refused entries are CANCELLED |
| StatusRace.RefusedAndStarted | vrtm/src/vrtmcore/modtcService.cpp:1176-1200 | a run with such a refusal that ends with a refused VM STARTED |
| StatusRace.UninterruptedIsOneStep | vrtm/src/vrtmcore/modtcService.cpp:1170-1205 | with nothing in between, check and write do to the table what the one step does |
| CleanerPresence.UncoveredIff | vrtm/src/vrtmcore/modtcService.cpp:2123-2139 | from a covered state, a step leaves a CANCELLED entry without a cleaner if and only if it resets the flag on a stale count or is a request for status 0 with no cleaner live |
| CleanerPresence.CleanerPresent | vrtm/src/vrtmcore/modtcService.cpp:2164-2187 | if the last count and the reset are one step and status 0 is never requested, then outside the window a CANCELLED entry means the flag is 1 and exactly one cleaner is live, in every run |
| CleanerPresence.CleanerCountedStep | vrtm/src/vrtmcore/modtcService.cpp:2168-2179 | the flag tells whether a cleaner is live, and never more than one is |
| CleanerPresence.CleanerCanBeLost | vrtm/src/vrtmcore/modtcService.cpp:2125-2136 | in the code's own order, a run that ends with a CANCELLED entry, flag 0 and no cleaner |
| CleanerPresence.StatusRequestNeedsCleaner | vrtm/src/vrtmcore/modtcService.cpp:1896-1898 | a run with one accepted launch and one status request for 0 that ends so too; a status that is no number is read as 0 |
| StatusHistory.StatusIsHistory | vrtm/src/vrtmcore/modtcService.cpp:1170-1205 | the table refines one automaton per VM: in every reachable state a Linux VM's status is the replay of that VM's own events, each of which was possible when it happened |
| Listener.FirstDecisionStands | vrtm/src/vrtmcore/modtcService.cpp:1178-1188 | in every run: once a VM was refused, cancelled or removed, its entry is CANCELLED, or absent after a removal or a cleaning, until the VM is entered anew, whatever libvirt reports and however often it is relaunched |
| Listener.DecidedHistory | vrtm/src/vrtmcore/modtcService.cpp:1178-1188 | the same for every possible history of one VM, read off without replaying it |
| Listener.LastReportIsStatus | vrtm/src/vrtmcore/vrtm_listener.cpp:95-153 | in every run: while undecided, the entry is there, not CANCELLED, and has the status last reported since it was entered, STOPPED before any report |
| Listener.UndecidedHistory | vrtm/src/vrtmcore/vrtm_listener.cpp:95-153 | the same for every possible history of one VM |
| Listener.UnregisteredIsAbsent | vrtm/src/vrtmcore/modtcService.cpp:1172-1175 | in every run: a VM that was never entered has no entry, whatever is reported about it |
| Listener.EventIsInTrace | vrtm/src/vrtmcore/vrtm_listener.cpp:95-153 | a libvirt event adds one report to the history of its own VM and nothing to any other: STARTED for a start, STOPPED for a stop with one of the four details and for a crash, DELETED for a removal, and nothing for the rest |
| Listener.RelaunchStartsOver | vrtm/src/vrtmcore/modtcService.cpp:1744-1778 | after any history that leaves no entry, a relaunch is a registration and a measurement, and starts over as STOPPED or refused |
| Listener.LaunchedAnew | vrtm/src/vrtmcore/modtcService.cpp:1744-1778 | in the machine: the three locked steps of a launch of a VM without an entry leave a new entry, STOPPED or CANCELLED |
| Listener.DomainEventCallback | vrtm/src/vrtmcore/vrtm_listener.cpp:95-153 | case by case, which events are reported and with which status |
| StatusUpdate.UpdateVmStatus | vrtm/src/vrtmcore/vrtm_listener.cpp:246-332 | end to end, over all chunkings and broken connections: success means that the VM was registered and the table is the specified one; on a reliable connection success comes back if and only if the VM is registered and the request has at most 4095 bytes |
| StatusUpdate.ReportDomainEvent | vrtm/src/vrtmcore/vrtm_listener.cpp:95-153 | from the event to the table: no other VM's view changes; on a reliable connection a registered VM that is not CANCELLED is STARTED after a start, STOPPED after a stop or crash, and gone after a removal if it had one entry; the exact exception is a removal that uncovers a second entry; all other VMs and events change nothing |
| StatusUpdate.NoTwins | vrtm/src/vrtmcore/modtcService.cpp:284-297 | with one entry per VM there is none to uncover |
| StatusUpdate.StatusTextIsShort | vrtm/src/vrtmcore/vrtm_listener.cpp:145-149 | a libvirt uuid's request is always below the limit |
| StatusUpdate.StatusAnswered | vrtm/src/vrtmcore/modtcService.cpp:1884-1920 | the server reads from the two strings the uuid and the number the listener meant |
| CleanerBound.CleanerEnds | vrtm/src/vrtmcore/modtcService.cpp:2123-2139 | among all other threads, after any beginning of a run, once nothing is newly cancelled: k rounds mean k <= 1 or (k - 1) * interval < age, not counting one for which the cleaner was already asleep; after k >= 1 rounds with k * interval >= age its next count ends it, and when it ends nothing is CANCELLED |
| CleanerLoop.BoundIs | vrtm/src/vrtmcore/modtcService.cpp:2123-2139 | the bound max(1, ceil(age/interval)) is the most rounds k with k <= 1 or (k - 1) * interval < age |
| CleanerBound.CancelsIff | vrtm/src/vrtmcore/modtcService.cpp:215-268 | the steps that cancel something are exactly the refusing updates of, and status requests for 0 to, an entry that is not CANCELLED; accepted launches, adds, lookups, other requests and cleaners are none |
| CleanerBound.TimesArePast | vrtm/src/vrtmcore/modtcService.cpp:137-146 | in every run no entry's status time is later than the clock |
| CleanerLoop.CleanupThread.CleanVrtmTableThread | vrtm/src/vrtmcore/modtcService.cpp:2123-2139 | the thread's own loop, undisturbed: it ends within max(1, ceil(age/interval)) rounds, removes exactly the CANCELLED entries and resets the flag |
| VmTable.ServiceProcTable.AddProcEntry | vrtm/src/vrtmcore/modtcService.cpp:124-157 | a free key gets the entry, STOPPED for a VM on Linux and STARTED otherwise; a taken key changes nothing; refused only for a hash over 32 bytes |
| VmTable.ServiceProcTable.RemoveProcEntry | vrtm/src/vrtmcore/modtcService.cpp:161-181 | exactly that id is gone, and the result says whether it was there |
| VmTable.ServiceProcTable.RemoveProcEntryByUuid | vrtm/src/vrtmcore/modtcService.cpp:184-194 | the entry the scan finds is gone |
| VmTable.ServiceProcTable.UpdateProcEntry | vrtm/src/vrtmcore/modtcService.cpp:215-268 | the new table after an update, status included, and failure for an unknown id |
| VmTable.ServiceProcTable.GetProcIdFromUuid | vrtm/src/vrtmcore/modtcService.cpp:284-297 | the scan in key order reports the least id with the uuid, 0 without one |
| VmTable.ServiceProcTable.GetCancelledVmCount | vrtm/src/vrtmcore/modtcService.cpp:327-338 | the number of CANCELLED entries |
| VmTable.ServiceProcTable.GetActiveVmsUuid | vrtm/src/vrtmcore/modtcService.cpp:340-350 | exactly the uuids of VM entries that are not CANCELLED are added to the set |
| VmTable.ServiceProcTable.UpdateAppStatus | vrtm/src/vrtmcore/modtcService.cpp:1170-1205 | CANCELLED is kept, DELETED removes, any other number is stored with the time; failure only for an unknown uuid |
| VmTable.ServiceProcTable.IsVerified | vrtm/src/vrtmcore/modtcService.cpp:477-492 | the scan in key order reports the verdict of the first entry with the uuid, failure without one |
| VmTable.ServiceProcTable.CollectExpired | vrtm/src/vrtmcore/modtcService.cpp:1210-1221 | exactly the expired ids, in key order |
| VmTable.ServiceProcTable.CleanVrtmTable | vrtm/src/vrtmcore/modtcService.cpp:1208-1227 | undisturbed, exactly the expired entries are removed, and counted |
| HyperV.CleanVrtmTableAndUpdateVmStatus | vrtm/src/vrtmcore/modtcService.cpp:1229-1277 | the table is brought in line with what the rows say of exactly the given VMs, both counters are the numbers of registered VMs reported gone or not enabled, a failed query changes nothing |
| HyperV.AfterReconciliation | vrtm/src/vrtmcore/modtcService.cpp:1239-1267 | afterwards no VM of the set that is gone from the hypervisor is registered, all others are as registered as before, and stopped ones are STOPPED or CANCELLED |
| HyperV.CountedButCancelled | vrtm/src/vrtmcore/modtcService.cpp:1252-1263 | a VM counted as inactive ends STOPPED if and only if it was not CANCELLED; a CANCELLED one is unchanged |
| HyperV.ReconcileActiveVms | vrtm/src/vrtmcore/modtcService.cpp:2142-2160 | one undisturbed round of the thread: the entry of an active VM is as it was if its first row has state 2, 6, 8 or 9, STOPPED for any other state, gone without a row; nothing else changes, and both counters are the numbers of entries that did |
| HyperV.CountersAgreeIff | vrtm/src/vrtmcore/modtcService.cpp:1239-1267 | for any set of VMs: as many are counted as removed as entries are gone, and as many as made inactive as entries changed if and only if none of these was CANCELLED |
| HyperV.CountersAreChanges | vrtm/src/vrtmcore/modtcService.cpp:1239-1267 | for the set of active VMs both counters are right |
| HyperV.RefusedWhileAsleep | vrtm/src/vrtmcore/modtcService.cpp:2142-2160 | they are not these numbers if a launch is refused between collecting and reconciling: the VM is counted and nothing changes |
| HyperV.OneMore | vrtm/src/vrtmcore/modtcService.cpp:1239-1267 | one round of the loop brings one more VM in line and leaves every other entry alone |
| HyperV.GetHypervVmsStatus | vrtm/src/util/hypervWMIcaller.cpp:185-207 | every asked-for VM is STARTED if the first row that names it has state 2, 6, 8 or 9, STOPPED if it has another, DELETED without a row; none is added or lost; a failed query leaves the map |
| HyperV.ClassifiedByRows | vrtm/src/util/hypervWMIcaller.cpp:185-207 | the same of the classification by itself |
| HyperV.FillVmList | vrtm/src/util/hypervWMIcaller.cpp:162-182 | of rows with the same name the first counts |
| Drives.NextAvailableLogicalDrive | vrtm/src/vrtmcore/modtcService.cpp:587-618 | the least letter from D to Z that heads no listed drive; none if and only if the list is empty or all are taken |
| Drives.HeadsOfListing | vrtm/src/vrtmcore/modtcService.cpp:599-607 | scanning the NUL-separated list collects the first letter of every name, in order |
| Base64.DecodeOfEncode | vrtm/src/util/base64.cpp:45-111 | decoding undoes encoding for every octet string |
| Base64.SextetsAreTheBits | vrtm/src/util/base64.cpp:149-154 | the four sextets of a group are its 24 bits, most significant first |
| Base64.Illustrations | vrtm/src/util/base64.cpp:149-154 | the illustrations of section 9 of RFC 4648 |
| Base64.TestVectors | vrtm/src/util/base64.cpp:149-154 | a test vector of its section 10, and the last character of the alphabet |
| Base64.EncodeLength | vrtm/src/util/base64.cpp:140-142 | an encoding has 4 * ceil(n/3) characters |
| Base64.EncodedSizeIsExact | vrtm/src/util/base64.cpp:137-142 | the allocated size is the size of the encoding, and the anticipated length of an encoding of up to 3072 octets is the original length |
| Base64.LengthCheckAccepts | vrtm/src/util/base64.cpp:78-100 | the anticipated-length check never rejects well-formed text within the limit |
| Base64.CappedRoundTrip | vrtm/src/util/base64.cpp:113-116 | for every C string the two limits together recover exactly its first 3072 characters |
| Base64.SurvivesIffShort | vrtm/src/util/base64.cpp:75-106 | a C string survives encoding and decoding if and only if it has at most 3072 characters |
| CLib.AtoiOfDecimal | vrtm/src/vrtmcore/modtcService.cpp:1867 | `atoi` of `%d` is the identity on every integer |
| CLib.NumberTexts | vrtm/src/vrtmcore/modtcService.cpp:1867 | which digits numbers are written with, and what blanks, signs and other characters are read as |
| CLib.Int32Decimal | vrtm/src/vrtmcore/modtcService.cpp:1843-1868 | a 32-bit integer fits the response buffer |
| XmlText.ParseForestOf | vrtm/src/vrtmchannel/parser.cpp:89-91 | parsing a printed list of nodes gives it back and stops where it ends, for every well-formed tree |
| XmlText.ParseDocOf | vrtm/src/vrtmchannel/parser.cpp:177 | a printed document parses to its tree, with or without declaration and surrounding space |
| XmlText.CutDocument | vrtm/src/vrtmchannel/parser.cpp:177-187 | a printed document cut short anywhere does not parse, unless only trailing space is missing |
| XmlRpc.ParseCallText | vrtm/src/vrtmchannel/parser.cpp:61-97 | the text of a call parses to the tree of that call |
| XmlRpc.WalkCallOf | vrtm/src/vrtmchannel/parser.cpp:189-219 | walking the tree of a call recovers its method and of each argument its first 3072 characters |
| XmlRpc.ParamsAllOrNone | vrtm/src/vrtmchannel/parser.cpp:196-219 | of any list of parameters, one that does not decode spoils all; otherwise each yields its decoded content up to the first NUL, in order |
| XmlRpc.CallTextNoNul | vrtm/src/vrtmchannel/parser.cpp:92 | no NUL in a document, so its terminator ends it |
| XmlRpc.CallTextLength | vrtm/src/vrtmchannel/parser.cpp:61-97 | the length of a document is bounded by its method and number of arguments, and covers each encoded argument |
| RpcRoundTrip.CallRoundTrip | vrtm/src/vrtmchannel/parser.cpp:151-228 | for every ASCII markup-free method and all C-string arguments, empty ones included, decoding what was sent gives method and arguments if and only if the document has at most 4095 bytes |
| RpcRoundTrip.DecodeSentCall | vrtm/src/vrtmchannel/parser.cpp:92 | and otherwise decodes to the empty call |
| RpcRoundTrip.CbufRoundTrip | vrtm/src/vrtmchannel/parser.cpp:100-149 | the same for the reply pair, which reads the content of the whole `params` element |
| RpcRoundTrip.DecodeCutCall | vrtm/src/vrtmchannel/parser.cpp:164-187 | a request cut anywhere on its way decodes to the call that was made or to none |
| RpcRoundTrip.DecodeCutCbuf | vrtm/src/vrtmchannel/parser.cpp:106-114 | a reply cut anywhere decodes to its data or to nothing |
| XmlRpcCodec.ArgsToXmlrpc | vrtm/src/vrtmchannel/parser.cpp:61-97 | the buffer holds the document and its terminator, or zeros if they exceed 4096 bytes; the rest is untouched; the size is that of the document |
| XmlRpcCodec.BuildParams | vrtm/src/vrtmchannel/parser.cpp:71-89 | the loop that appends nodes builds the parameters in argument order |
| XmlRpcCodec.EncodeCall | vrtm/src/vrtmchannel/channelcoding.cpp:33-39 | everything behind the document is zero |
| XmlRpcCodec.CbufToXmlrpc | vrtm/src/vrtmchannel/parser.cpp:25-59 | the buffer holds the reply document, or zeros |
| XmlRpcCodec.XmlrpcToCbuf | vrtm/src/vrtmchannel/parser.cpp:100-149 | size and copied data are what the specification of decoding says, terminator included |
| ArgOwnership.XmlrpcToArgs | vrtm/src/vrtmchannel/parser.cpp:151-228 | all or nothing: every slot owns a copy of its argument, or status -1, nothing allocated, used slots NULL and the caller's count as before |
| ArgOwnership.FreeAll | vrtm/src/vrtmcore/modtcService.cpp:2109-2115 | each owned string is freed once, every slot is NULL and the heap is as before |
| ArgOwnership.FreeOne | vrtm/src/vrtmchannel/parser.cpp:212-217 | freeing one slot's string and clearing the slot leaves the others owned |
| ArgOwnership.NothingOwned | vrtm/src/vrtmcore/modtcService.cpp:2109-2115 | with all slots NULL nothing of what was allocated is left |
| ArgOwnership.CountCallOf | vrtm/src/vrtmchannel/parser.cpp:196-219 | a call's document carries as many parameters as the call has arguments |
| TcpChannel.HeaderRoundTrip | vrtm/src/vrtmchannel/tcpchan.h:6-10 | the three words of a header are read back from its bytes |
| TcpChannel.ChWrite | vrtm/src/vrtmchannel/tcpchan.cpp:88-102 | whatever parts `send` takes, the bytes go out in order and completely, or a first part of them before an error |
| TcpChannel.ChRead | vrtm/src/vrtmchannel/tcpchan.cpp:32-86 | whatever parts `recv` delivers, the bytes stand in order at the start of the buffer and are enough for the announced frame, the buffer or the stream; for a whole frame it never waits |
| TcpChannel.ReadHeader | vrtm/src/vrtmchannel/tcpchan.cpp:41-56 | the first loop reads the header or all there is |
| TcpChannel.FrameArrives | vrtm/src/vrtmchannel/tcpchan.cpp:32-86 | of a frame of which only a first part was sent, exactly this part arrives, with the header's own fields once it is complete |
| TcpChannel.FrameDelivered | vrtm/src/vrtmchannel/tcpchan.cpp:32-102 | a frame that fits the buffer is delivered exactly, independently of chunking |
| LaunchArgs.ParseArgs | vrtm/src/vrtmcore/modtcService.cpp:1398-1438 | the loop with its moving cursor computes the scan of the vector |
| LaunchArgs.NeverReadPastEnd | vrtm/src/vrtmcore/modtcService.cpp:1398-1438 | a vector whose last string is not a flag is never read past its end, whatever flags stand where values belong |
| LaunchArgs.ProxyVectorScans | vrtm/src/vrtmproxy/kvm_proxy/vrtm_proxy.cpp:109-118 | so the proxy's vector is parsed whatever its four strings are |
| LaunchArgs.LastOccurrenceWins | vrtm/src/vrtmcore/modtcService.cpp:1398-1438 | for every vector of flag/value pairs and bare `-docker_instance` whose values are not flags tested later, each field is the value of the last occurrence of its flag |
| LaunchArgs.LastValueIsLast | vrtm/src/vrtmcore/modtcService.cpp:1398-1438 | the value of the last occurrence is the one at the last index with that flag |
| LaunchArgs.PairTakenAloneIff | vrtm/src/vrtmcore/modtcService.cpp:1398-1438 | one iteration takes a flag with its value and nothing else if and only if the value is not a flag tested later, or is the bare flag seen before |
| LaunchArgs.FlagAsValueIsTakenTwice | vrtm/src/vrtmcore/modtcService.cpp:1401-1409 | without that condition it fails: a vector in which a value is parsed as a flag again |
| LaunchArgs.ProxyVectorParsed | vrtm/src/vrtmproxy/kvm_proxy/vrtm_proxy.cpp:109-118 | the proxy's vector is parsed to the four strings put in, field sizes permitting |
| LaunchArgs.DockerVectorParsed | vrtm/src/vrtmcore/modtcService.cpp:1426-1437 | a Docker launch's mount path, name, uuid and bare flag are parsed to these, field sizes permitting |
| LaunchArgs.ScanKeepsUuid | vrtm/src/vrtmcore/modtcService.cpp:1416-1419 | whatever the vector, the uuid is one of its strings and fits its field, or is empty |
| LaunchDecision.FailingSteps | vrtm/src/vrtmcore/modtcService.cpp:1443-1716 | each of these alone denies a launch: no uuid, Docker without mount path or name, an unread policy or manifest, and under a measuring policy a failed mkdir, mount or unmount of a VM, a failed verifier or a missing hash file |
| LaunchDecision.SucceedingSteps | vrtm/src/vrtmcore/modtcService.cpp:1443-1823 | nothing else does: without these there is an answer, -1 exactly if the policy enforces and the line does not show the hash, else the id of the VM's entry or of the request |
| LaunchDecision.PositiveIffAdmitted | vrtm/src/vrtmcore/modtcService.cpp:1810-1823 | a positive id is handed out if and only if the launch is admitted and the id positive; it is then that id |
| LaunchDecision.ComparisonMeans | vrtm/src/vrtmcore/modtcService.cpp:1577-1737 | what comparing the two cut strings says about the policy's hash and the measurement line as they are, both directions |
| LaunchDecision.EnforcedMeansHashShown | vrtm/src/vrtmcore/modtcService.cpp:1718-1823 | under enforcement and with a hash of 1 to 64 characters, a positive id means that the image was measured and shows this hash |
| LaunchDecision.EmptyMeasurementAdmitted | vrtm/src/vrtmcore/modtcService.cpp:1577-1823 | without such a hash an empty measurement file gets a positive id under enforcement |
| LaunchDecision.IdsGivenArePositive | vrtm/src/vrtmcore/modtcService.cpp:1741-1760 | the id is positive as long as the ids in the table are and the request counter has not come round to 0 |
| LaunchDecision.MeasuredIsRecorded | vrtm/src/vrtmcore/modtcService.cpp:1741-1778 | a measured launch is in the table with policy and verdict, CANCELLED if refused, and no other entry changes |
| LaunchDecision.LaunchedEntry | vrtm/src/vrtmcore/modtcService.cpp:124-268 | the entry a measured launch of an unknown VM leaves, field by field: its type from the bare flag, its status from verdict, type and build, the policy's data cut off whole where a field is too small |
| LaunchDecision.RelaunchedEntry | vrtm/src/vrtmcore/modtcService.cpp:215-268 | the same for a VM that has an entry: uuid, file, type and time stay, and of a Linux VM's status all but a refusal |
| LaunchDecision.UnmeasuredKeepsTable | vrtm/src/vrtmcore/modtcService.cpp:1503-1823 | a launch that is denied or not measured leaves the table alone |
| LaunchDecision.VerdictIsKept | vrtm/src/vrtmcore/modtcService.cpp:1741-1778 | after a measured launch the VM's first entry has its verdict |
| LaunchDecision.UndisturbedLaunch | vrtm/src/vrtmcore/modtcService.cpp:1744-1778 | left alone, the three locked steps of the interleaved machine do to the table what `StartApp` does |
| LaunchDecision.ShortHashNeedsBareLine | vrtm/src/vrtmcore/modtcService.cpp:1718-1729 | a golden hash of 1 to 63 characters matches if and only if it is the whole line |
| LaunchDecision.NewlineNeverMatches | vrtm/src/vrtmcore/modtcService.cpp:1718-1729 | so it never matches a line that ends in a newline |
| LaunchDecision.LongHashComparesPrefix | vrtm/src/vrtmcore/modtcService.cpp:1577-1726 | one of 64 characters matches if and only if the line starts with it; a longer one only an empty line |
| Service.VrtmCore.StartApp | vrtm/src/vrtmcore/modtcService.cpp:1331-1824 | result, id and table are those of the specification; success means that every step did, each spelled out; and the argument strings stay owned once or are freed once |
| Service.VrtmCore.Measure | vrtm/src/vrtmcore/modtcService.cpp:1503-1737 | policy, commands and hash comparison give the specified decision, which exists if and only if every step succeeded, each spelled out |
| Service.VrtmCore.Record | vrtm/src/vrtmcore/modtcService.cpp:1741-1778 | lookup, add and update leave the specified table and always find the entry |
| Service.VrtmCore.ServiceRequest | vrtm/src/vrtmcore/modtcService.cpp:1830-2121 | a launch and a status request are answered with the document of the specified number or with size 0; a verdict query with the document of "1" or "0" for the first entry of the uuid, an id query with that of its id, size 0 without; all other codes with size 0 and no effect; every argument string is freed exactly once |
| Service.VerdictAnswers | vrtm/src/vrtmcore/modtcService.cpp:2032-2066 | a verdict query is answered 1 if and only if the VM's first entry is verified, 0 if and only if it is not, and not at all if and only if there is none |
| Service.IdAnswers | vrtm/src/vrtmcore/modtcService.cpp:1947-1978 | an id query is answered with an id if and only if it is the first entry's and not 0 |
| Service.StatusAnswers | vrtm/src/vrtmcore/modtcService.cpp:1884-1920 | a status request is answered 0 if and only if there is such an entry, and -1 otherwise |
| Service.VrtmCore.ServeTable | vrtm/src/vrtmcore/modtcService.cpp:1884-2066 | the status request and the two queries are answered from the table as specified |
| Service.VrtmCore.SendReply | vrtm/src/vrtmcore/vrtminterface.cpp:191-215 | one frame goes out, status -1 if and only if the reply is empty; it carries the reply, with zeros for what is beyond its first PARAMSIZE - 13 bytes |
| Service.VrtmCore.ProcessRequest | vrtm/src/vrtmcore/vrtminterface.cpp:159-216 | frames of fewer than 12 bytes or announcing more than PARAMSIZE are dropped without an answer or effect; every other request leaves the specified table and gets exactly its frame, or a first part of it if sending fails |
| Service.CallIdsDistinct | vrtm/src/vrtmcore/vrtminterface.cpp:143-157 | two requests get the same id if and only if a multiple of INT32_MAX requests lies between them |
| Service.CallIdsPositive | vrtm/src/vrtmcore/vrtminterface.cpp:143-157 | ids are below INT32_MAX, and 0 for exactly every INT32_MAX-th request |
| Service.VrtmCore.HandleSession | vrtm/src/vrtmcore/vrtminterface.cpp:218-267 | for every stream of bytes: a first part of it that is enough for the frame it announces is read and processed as specified, or nothing at all happens; on a reliable connection the whole reply goes out |
| Service.ReplyFits | vrtm/src/vrtmcore/modtcService.cpp:1867-1873 | an answer with a 32-bit number is below 1024 bytes and not empty |
| Exchange.Ask | vrtm/src/vrtmcore/vrtminterface.cpp:159-267 | one request and its answer, over all chunkings and broken connections: a number that is read is the specified answer to the arguments, for queries the first entry's verdict or id, and the table is then the specified one; on a reliable connection that is so if and only if the request has at most 4095 bytes |
| VerdictQuery.LaunchThenAsk | vrtm/src/vrtmcore/modtcService.cpp:1331-2066 | a measured launch and then the query for its verdict, both end to end: 1 comes back if and only if the line showed the policy's hash, and 0 if and only if not |
| WireFormat.CallTextIs | vrtm/src/vrtmchannel/parser.cpp:61-97 | the document of a call, character by character |
| WireFormat.ReplyTextIs | vrtm/src/vrtmcore/modtcService.cpp:1867-2060 | the document of an answer is that of a call with one argument, whose method names launches and status requests |
| WireFormat.FrameLayout | vrtm/src/vrtmchannel/tcpchan.h:6-10 | a frame is request code, payload size and status, each of four octets with the least significant first, and the payload |
| WireFormat.ReplyLayout | vrtm/src/vrtmcore/vrtminterface.cpp:191-215 | an answer has status 0; what is not answered has status -1 and is the bare header |
| Exchange.Serve | vrtm/src/vrtmcore/vrtminterface.cpp:218-267 | whatever arrives of a request, the server answers it as specified for its arguments, or with nothing and no effect |
| Exchange.SendRequest | vrtm/src/vrtmproxy/kvm_proxy/vrtm_proxy.cpp:108-136 | the request goes out as one frame, or a first part of it |
| Exchange.ReadAnswer | vrtm/src/vrtmproxy/kvm_proxy/vrtm_proxy.cpp:138-180 | whatever part of the reply arrives, the client gets the number in it if the reply is complete with status 0, else nothing |
| Exchange.DecodePart | vrtm/src/vrtmcore/modtcService.cpp:1849-1856 | the server decodes the arguments that were sent or none from whatever arrives |
| Exchange.DecodeReplyPart | vrtm/src/vrtmproxy/kvm_proxy/vrtm_proxy.cpp:157-173 | of a reply cut anywhere the client decodes the number's digits or nothing |
| Exchange.PartAnswered | vrtm/src/vrtmcore/modtcService.cpp:1849-1882 | a request cut anywhere is answered as if whole, or not at all and without effect |
| LaunchGate.GetRpcoreResponse | vrtm/src/vrtmproxy/kvm_proxy/vrtm_proxy.cpp:95-180 | end to end, for all four strings, over all policies, hashes, failing steps, chunkings and broken connections: a positive result means that every step of the launch succeeded, verifier and mounting included, is the id given and leaves the specified table, and under enforcement with a hash of 1 to 64 characters that the image shows it; on a reliable connection it is positive if and only if the launch is launchable |
| LaunchGate.PositiveOnlyInOrder | vrtm/src/vrtmcore/modtcService.cpp:1857-1882 | the proxy's vector is answered with a positive id if and only if its launch is admitted and the id positive, and leaves the table of that launch |
| LaunchGate.LaunchableIff | vrtm/src/vrtmcore/modtcService.cpp:1443-1823 | what the gate lets through, over the files, exit codes, policy, hash and line themselves: both directions, every step spelled out |
| LaunchGate.LaunchableShowsHash | vrtm/src/vrtmcore/modtcService.cpp:1718-1823 | under enforcement, what the gate lets through shows the policy's hash, or there is nothing on either side to compare |
| LaunchGate.EmptyMeasurementLaunchable | vrtm/src/vrtmcore/modtcService.cpp:1577-1823 | a launch that is otherwise in order and was measured as nothing passes under enforcement if and only if the policy has no hash or one over 64 characters |
| LaunchGate.EmptyMeasurementPasses | vrtm/src/vrtmcore/modtcService.cpp:1577-1823 | such as the very first request, for kernel "k" and uuid "u", under a policy without a hash |
| LaunchGate.FieldsAskedAreTheStrings | vrtm/src/vrtmproxy/kvm_proxy/vrtm_proxy.cpp:109-118 | the server parses the proxy's four strings, field sizes permitting, if none is a flag its place exposes it to |
| LaunchGate.RequestFits | vrtm/src/vrtmproxy/kvm_proxy/vrtm_proxy.cpp:100-131 | however long the strings are, the request fits both buffers |
| CanonicalForms.FormsAgree | vrtm/src/vrtmcore/modtcService.cpp:782-792 | on trees without prefixes the inclusive form that is computed and the exclusive one that is declared are the same, whatever default namespaces surround them |
| CanonicalForms.UnusedPrefixTellsApart | vrtm/src/vrtmcore/modtcService.cpp:782-792 | with an unused prefix they differ: only the inclusive form renders its declaration |
| CanonicalForms.UsedPrefixStays | vrtm/src/vrtmcore/modtcService.cpp:782-792 | a prefix that an attribute uses is declared in both |
| CanonicalForms.CanonicalInBothForms | vrtm/src/vrtmcore/modtcService.cpp:782-792 | canonical octets of either form parse, and canonicalize to themselves in both |
| CanonicalXml.CanonicalIsFixed | vrtm/src/vrtmcore/modtcService.cpp:782-792 | the same for the common form: canonical octets parse, and canonicalize to themselves, for every well-formed document |
| CanonicalXml.AttributesAscend | vrtm/src/vrtmcore/modtcService.cpp:782-792 | attributes come in dictionary order |
| SignedReport.ReportIsPrinted | vrtm/src/vrtmcore/modtcService.cpp:939-1119 | the report, written piece by piece, is the printed report tree |
| SignedReport.ParseReport | vrtm/src/vrtmcore/modtcService.cpp:939-1119 | with markup-free values the report is well-formed XML for that tree |
| SignedReport.EnvelopeRemoved | vrtm/src/vrtmcore/modtcService.cpp:955-965 | removing the signature from the report leaves the tree of the hashed text |
| SignedReport.HashedOctetsAgree | vrtm/src/vrtmcore/modtcService.cpp:939-967 | the inclusive canonical octets of the hashed text are those that the transforms written in the report, enveloped-signature (section 6.6.4 of XML Signature Syntax and Processing) and exclusive, make of the report |
| SignedReport.SignedOctetsAgree | vrtm/src/vrtmcore/modtcService.cpp:993-1012 | the signed text is, octet for octet, the `SignedInfo` of the report in the exclusive form it declares, and inclusive canonicalization leaves it as it is |
| SignedReport.ReportParts | vrtm/src/vrtmcore/modtcService.cpp:943-1119 | a verifier finds digest, signature, the transforms, canonical form and algorithms they were made with, `SignedInfo` and its namespace where it looks for them |
| SignedReport.QuotedValues | vrtm/src/vrtmcore/modtcService.cpp:943-950 | a reader finds nonce, VM, the name of the hash and the VM's hash under their names |
| SignedReport.TextsAre | vrtm/src/vrtmcore/modtcService.cpp:943-1012 | the hashed text and the parts of the report, tag by tag |
| SignedReport.UrisName | vrtm/src/vrtmcore/modtcService.cpp:944-947 | the algorithm identifiers in the report are the standard ones of the hash that was chosen |
| ReportWriter.ReportVerifiesIff | vrtm/src/vrtmcore/modtcService.cpp:955-1104 | with the transforms, form and algorithms it names, a report passes reference and signature validation if and only if digest and signature are those of the two texts |
| ReportWriter.HeadFits | vrtm/src/vrtmcore/modtcService.cpp:943-956 | the 8192-byte buffer never cuts the quoted values |
| ReportWriter.ReadSignatureValidIff | vrtm/src/vrtmcore/modtcService.cpp:1080-1104 | the report with the signature as it is read back validates if and only if the signature has at most 256 bytes |
| ReportWriter.LongSignatureFails | vrtm/src/vrtmcore/modtcService.cpp:1080-1104 | a signature of 257 bytes, cut to 256, does not validate |
| ReportWriter.ReportDirectory.GenerateSaml | vrtm/src/vrtmcore/modtcService.cpp:906-1124 | it succeeds if and only if the TPM version is known, the text to hash is XML and no step fails; with markup-free values the report then written names SHA-256, in both algorithms and in the quoted name, for version 2.0 and SHA-1 for version 1.2, quotes the given values, has a valid reference, and a valid signature if and only if that has at most 256 bytes |
| ReportWriter.ReportDirectory.WriteQuote | vrtm/src/vrtmcore/modtcService.cpp:939-964 | declaration, quoted values and signature head, and the text to hash, untruncated |
| ReportWriter.ReportDirectory.WriteDigest | vrtm/src/vrtmcore/modtcService.cpp:986-992 | the digest goes into the report |
| ReportWriter.ReportDirectory.WriteSignedInfo | vrtm/src/vrtmcore/modtcService.cpp:993-1012 | the text to sign, with the same digest |
| ReportWriter.ReportDirectory.WriteSignature | vrtm/src/vrtmcore/modtcService.cpp:1099-1121 | signature, certificate and end of the report |
| Namespaces.RegisterNamespaces | vrtm/src/vrtmchannel/xpathparser.cpp:104-147 | the in-place tokenizer stops on every list and registers and returns what reading the list says |
| Namespaces.CutPair | vrtm/src/vrtmchannel/xpathparser.cpp:122-137 | writing the two NULs leaves prefix, href and rest as three strings of the buffer |
| Namespaces.PrintedListIsRead | vrtm/src/vrtmchannel/xpathparser.cpp:104-147 | however many spaces precede, separate and follow the pairs, exactly the pairs are registered, in order, with success |
| Namespaces.RegisteredAreListable | vrtm/src/vrtmchannel/xpathparser.cpp:116-144 | only pairs with a nonempty prefix without `=` or leading space and an href without space are ever registered |
| Namespaces.PairSurvivesIff | vrtm/src/vrtmchannel/xpathparser.cpp:116-144 | a pair on its own survives if and only if it is such a pair |

## Left out

- Service.VrtmCore.ServiceRequest: leaves out the codes 38 (metadata) and 42 (report), which put the same decoding and encoding around a table lookup and the report writer; requires at most 32 parameters, a launch vector that is not read past its end and no status request with one argument only, because the code then reads or writes past its array.
- Service.VrtmCore.ProcessRequest: the same condition, on the request in the buffer.
- Service.VrtmCore.HandleSession: the same condition, on everything that can arrive on the connection.
- Service.VrtmCore.StartApp: requires a vector that does not end in a flag awaiting its value; the code takes that value from beyond the arguments. `LaunchArgs.NeverReadPastEnd` says which vectors are safe.
- LaunchArgs.ParseArgs: the same condition.
- ArgOwnership.XmlrpcToArgs: requires as many slots as the document has parameters; the code does not count them.
- XmlRpcCodec.XmlrpcToCbuf: requires a buffer that holds what the document decodes to; the code allows 4096 bytes whatever the buffer.
- Exchange.Ask: requires a request that fits the client's buffer and arguments that suffice for its code; `LaunchGate.RequestFits` and `StatusUpdate.StatusAskable` prove this for both clients.
- LaunchArgs.LastOccurrenceWins: one direction for whole vectors, because a value that is a later flag can by chance leave every field as it should be; `LaunchArgs.PairTakenAloneIff` is the equivalence for one iteration.
- ReportWriter.ReportDirectory.GenerateSaml: starts at the choice of the hash; finding the entry and refusing a STOPPED one come before it, and what validates is stated for values without markup, because others are outside the XML subset.
- RpcRoundTrip.CallRoundTrip: for ASCII method names without markup; libxml2 writes other characters escaped.
- The retry of the proxy and the listener after errno 11: the sockets are blocking; a failed `recv` counts as a failure.
- `atoi` of a number beyond 32 bits, which C leaves undefined: `Atoi` gives the number.
- Starting the thread inside `cleanupService` in `Service.VrtmCore.StartApp`: the interleaved machine has it as its own step.
- Two requests at once in `Service` and `Exchange`: interleaving is the subject of `TableRuns`; `LaunchDecision.UndisturbedLaunch` ties the two together.
- `main` of the proxy: extracting paths from the qemu command line, and `execve` after a positive result.
- The Windows branches of `StartApp` (drive letter, PowerShell mounting), of Base64 and of the hash; the drive-letter allocator is in `Drives`.
- `load_config`, files and directories: creating, copying and removing them, log output, lock files, signal handlers, the accept loop.
- Entry fields that hold the lengths of other fields, `m_procid`, the VDI uuid and the argument vector of an entry.
- `UpdateAppID`, `TerminateApp` and the two-uuid `updateprocEntry`: no request reaches them.
- The method string and the XPath object that are never freed.
- Character encodings: strings are sequences of characters below 256 on the channel; the report's text is compared character by character.
- XML with prefixes in the parser, and entities, comments or processing instructions other than the declaration.
- The near copy of the listener in vrtm/src/vrtmlistener/kvm_listener.
