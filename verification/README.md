# A verified model of the HarmonyOS port's protocols and tools

This project models the parts of the port whose correctness depends on many functions
together, and proves in Dafny what they promise for every input, every run or every
interleaving. Code that changes state is modelled by classes and methods that change the
same fields with the same loops and branches; each is proved to compute a specification
function, and the theorems are about those functions.

| files | what they model |
|---|---|
| `Descriptors`, `ForkModel`, `ForkServer`, `ForkClient` | the phone fork server and the browser's side of it: fixed arrays of children and exit records, the reply that accumulates exits, the descriptor table in which every open descriptor is an instance of its own |
| `ForkSystem`, `ForkTheorems` | browser, server and kernel together: every process has an incarnation number, a pid is free again only when its end was reported to its parent, and the steps of all parties interleave freely |
| `Bytes`, `PerfJitLog`, `PerfJitRoundTrip`, `PerfJitOverrun`, `ElfImage` | the perf-JIT log as bytes in a shared mapping, the reader that parses it, when that reader leaves the mapping, and the ELF64 image that is printed, reloaded and asked for program counters |
| `Bridge`, `BridgeRuns` | the ArkTS request registry, first as a class, then as lock-sized steps of any number of threads |
| `AccessibilityTree`, `AccessibilityProviders` | searches over a possibly cyclic snapshot, and the registry of providers with generations and focus |
| `PatchSections`, `PatchRefresh` | replacing an applied patch: skipped sections, rollback, preserved times |
| `Opcodes`, `ConflictResolver`, `PlatformLists`, `Blanks` | the two three-way merge tools |
| `Guards` | the backward and the forward matcher of preprocessor conditionals |
| `ExitRegistry` | exits of native children, reported by callback or seen through a pidfd |
| `Attributes`, `JitFlags` | the attribute strings of the glue generator, and the scanner of V8 flags |
| `Options` | the optional value, and sets in ascending order |

What the environment does is an input with a short contract: answers of system calls (a pid
is reused only after waiting; a duplicated descriptor gets the lowest free number), the
result of git on one section (applying undoes reversing or does not fit, and a section
changes only the file its header names), the edits a difference algorithm lists, what a
regular expression says of a line, what poll says of a pidfd.

Some things the proofs brought out; the model follows the code in each:

- The perf-JIT reader accepts a log only if its code numbers start at zero and none was
  dropped before the last record. The number advances for dropped records and goes on in a
  second mapping, so such logs are refused (`RoundTripExactly` says exactly when;
  `SecondMappingRefused` and `GapRefused` are the two families). A name that holds a NUL is
  cut there, and the code is read from behind that NUL (`ReadAsLogged`).
- The log reader trusts the lengths it finds, and compares with the terminator before it
  checks that it is still inside the mapping. `PerfJitOverrun.MappingOverruns` says for every
  mapping when reading it goes beyond it, from where the header says the records begin, and
  `NameWithoutEnd` is a mapping with a header of the right length where it does.
- `e_ident[6]` of the image holds the index `EI_VERSION`, 6, where section "ELF
  Identification" of the System V ABI has the version, 1; a 64-bit image is marked `EM_ARM`
  (`ElfImage.Identification`).
- Replacing a patch section by section can succeed where replacing the whole fails: skipped
  sections are only checked by reversing them without context, and need not apply again in
  theirs (`PatchSections.OnlySkippingSucceeds`, where a later patch changed that context;
  `PatchRefresh.PassedOnIsTheWhole` says exactly when the two agree).
- The forward matcher of conditionals does not count `#ifdef` and `#ifndef`
  (`Guards.IfdefMisleads`), and the backward one does not see indented directives
  (`Guards.IndentMisleads`). `WalksAgree` says exactly when both find the block.
- A callback for an old child that comes after the launch of a new one with its number began
  marks the new child as exited (`ExitRegistry.LateCallbackMisleads`; `OlderExitIsShown` says
  exactly when).
- A registration whose callbacks are refused takes out whatever provider the component has
  for that window by then, another thread's too (`AccessibilityProviders.RefusalTakesOutAnother`;
  `RefusalExactly` says in which interleavings, and `Whose` whose provider is in place).
- A reading order that names the root by its alias -1 breaks the way back of a directional
  search (`AccessibilityTree.ThereAndBack` says exactly when).
- An insertion at the start of a conflict block is put in front of it, although the comment
  beside it says it is appended; a replaced run is searched by its first line only, and can
  land on an earlier equal line (`ConflictResolver.WrongOneReplaced`). Two such misplaced
  edits can make up for each other (`TwoWrongsMakeARight`).
- `merge-platform-lists.py` raises an exception on a line that begins with a parenthesis
  instead of leaving the block alone (`PlatformLists.LeadRaises`).

`dafny verify dfyconfig.toml` checks the whole project.

## Model

| member | source | states |
|---|---|---|
| Descriptors.LowestFree | overlay/base/process/fork_server_ohos.cc:199-209 | the duplicate of a descriptor gets a free number at or above the minimum, and every number in between is taken |
| Descriptors.FdTable.CloseFds | overlay/base/process/fork_server_ohos.cc:127-131 | closes exactly the listed descriptors, each of them open when it is closed, and so none twice |
| Descriptors.FdTable.ParkReceivedFds | overlay/base/process/fork_server_ohos.cc:199-211 | succeeds exactly if no duplication fails; whether or not one fails midway, the vector names distinct open descriptors, those moved are at or above the minimum, and no other descriptor is touched |
| Descriptors.FdTable.VisitEntry | overlay/base/process/fork_server_ohos.cc:184-193 | raises the minimum above the entry, and closes the descriptor exactly if it is none of those to keep |
| Descriptors.FdTable.CloseInheritedFds | overlay/base/process/fork_server_ohos.cc:175-197 | keeps exactly the standard streams, the private channel and the cached descriptors, and ends with a minimum above every inherited number; if the listing does not open it fails and nothing is touched |
| ForkModel.PackRoundTrip | overlay/base/process/fork_server_ohos.cc:545-551 | a stage and a signed detail survive the shared 64-bit word |
| ForkModel.FreeSlot | overlay/base/process/fork_server_ohos.cc:410-415 | the first slot without a child, if there is one |
| ForkModel.SlotOf | overlay/base/process/fork_server_ohos.cc:451-457 | the first slot that holds the pid, if there is one |
| ForkModel.ApplyExitsHits | overlay/base/process/fork_server_ohos.cc:509-515 | a known child ends with the status and progress of its last record |
| ForkModel.ApplyExitsMisses | overlay/base/process/fork_server_ohos.cc:509-515 | a child without a record is left alone |
| ForkServerProcess.ReapFirstCount | overlay/base/process/fork_server_ohos.cc:290-309 | reaping turns children into exit records one for one |
| ForkServerProcess.LoopHeadFits | overlay/base/process/fork_server_ohos.cc:392-465 | whatever happens, whenever the running loop comes round, occupied slots and unreported exits together are at most 64 |
| ForkServerProcess.ForkServer.constructor | overlay/base/process/fork_server_ohos.cc:384-389 | the server starts with 64 empty slots and no exit record |
| ForkServerProcess.ForkServer.ReapServerChildren | overlay/base/process/fork_server_ohos.cc:290-309 | within the arrays, each ended child becomes a record with its own status (or -1) and its own progress word, and its slot is free |
| ForkServerProcess.ForkServer.FindFree | overlay/base/process/fork_server_ohos.cc:410-415 | the search loop finds the first free slot |
| ForkServerProcess.ForkServer.FindChild | overlay/base/process/fork_server_ohos.cc:451-457 | the search loop finds the slot of the pid |
| ForkServerProcess.ForkServer.Owns | overlay/base/process/fork_server_ohos.cc:436-438 | true exactly if a slot holds the pid |
| ForkServerProcess.ForkServer.Answer | overlay/base/process/fork_server_ohos.cc:407-459 | a signal is sent exactly if it is SIGKILL or SIGTERM and a slot holds the pid, the error telling which failed or what kill said; a status reply has the word of the child held; a launch fills the first free slot exactly if parking, room, parameters and fork allow, and otherwise reports the first error; stop ends the loop; the pending exits are always in the reply, and every received descriptor is closed |
| ForkServerProcess.ForkServer.Receive | overlay/base/process/fork_server_ohos.cc:241-272 | each received descriptor takes the lowest number then free, and no open one is disturbed |
| ForkServerProcess.ForkServer.Iteration | overlay/base/process/fork_server_ohos.cc:392-465 | one turn of the loop: it goes on exactly after a timeout or a delivered reply to anything but a stop; exits are forgotten only with the delivered reply that tells them; no descriptor is left behind |
| ForkServerProcess.ForkServer.EndChildren | overlay/base/process/fork_server_ohos.cc:466-475 | exactly the children still held are killed and waited for |
| ForkServerProcess.ForkServer.ServerLoop | overlay/base/process/fork_server_ohos.cc:373-478 | over all turns, for any minimum: the arrays suffice, the descriptor table ends as it began but for the private channel, every child left at the end is ended, and nothing is parked below the minimum |
| ForkServerProcess.RunServer | overlay/base/process/fork_server_ohos.cc:373-478 | the server from its start to its end: every number it ever moves a received descriptor to is above every inherited one, and it ends with the standard streams and cached descriptors it inherited, nothing else |
| ForkClientProcess.ForkClient.LoseServer | overlay/base/process/fork_server_ohos.cc:480-497 | every running child becomes not running with -1, its stage and detail kept; what was known of an ended one stays as it was |
| ForkClientProcess.ForkClient.ReadReply | overlay/base/process/fork_server_ohos.cc:499-520 | each known child with a record is as its last record says; of the others only a running one the reply has a word of changes, in stage and detail; a malformed reply changes nothing |
| ForkClientProcess.ForkClient.Rpc | overlay/base/process/fork_server_ohos.cc:522-541 | an error reply is absorbed too; anything that is not a reply costs the server |
| ForkClientProcess.ForkClient.Start | overlay/base/process/fork_server_ohos.cc:584-618 | only the first attempt can start a server; success exactly if the socket is open |
| ForkClientProcess.ForkClient.StopServer | overlay/base/process/fork_server_ohos.cc:620-643 | the last exits are absorbed before the server counts as lost |
| ForkClientProcess.ForkClient.LaunchChild | overlay/base/process/fork_server_ohos.cc:651-685 | refuses exactly the arguments it should without touching anything; a new child runs, with nothing known of it yet, even if the same reply ended its predecessor |
| ForkClientProcess.ForkClient.Status | overlay/base/process/fork_server_ohos.cc:687-701 | nothing for a stranger, the stored status for an ended child, the refreshed one otherwise |
| ForkClientProcess.ForkClient.Signal | overlay/base/process/fork_server_ohos.cc:703-718 | succeeds if the server did, or if the child turns out to have ended by itself |
| ForkSystem.InvStep | overlay/base/process/fork_server_ohos.cc:290-541 | every step of browser, server, kernel or child keeps the invariant on slots, records, incarnations and the browser's map |
| ForkTheorems.InvRun | overlay/base/process/fork_server_ohos.cc:290-541 | the invariant holds in every state of every run |
| ForkTheorems.ExitsConserved | overlay/base/process/fork_server_ohos.cc:393-541 | between calls a child counts as running exactly if it is in a slot or in a pending exit record, and it is never in both |
| ForkTheorems.RecordsTellTheirOwn | overlay/base/process/fork_server_ohos.cc:300-306 | no record is a duplicate; each has the status and last progress of the incarnation the browser knows, never of the slot's next occupant |
| ForkTheorems.EndedChildHasOwnStatus | overlay/base/process/fork_server_ohos.cc:480-520 | a child shown as ended has its own wait status and progress, or -1 after the server was lost |
| ForkTheorems.ArraysSuffice | overlay/base/process/fork_server_ohos.cc:78-90 | the fixed arrays never overflow in any run |
| ForkTheorems.SignalHitsTheAskedChild | overlay/base/process/fork_server_ohos.cc:435-444 | answering a SIGKILL or SIGTERM request sends that signal exactly if the server still holds the pid, and then to the very incarnation that was asked about, never to a process that reuses the pid; answering anything else sends none |
| ForkTheorems.OnlyRequestsHit | overlay/base/process/fork_server_ohos.cc:435-444 | no other event sends a signal on request |
| ForkTheorems.ServingGoesOn | overlay/base/process/fork_server_ohos.cc:460-464 | the server goes on after a request exactly if its reply could be sent and it was not asked to stop |
| ForkTheorems.LaunchedIsHeld | overlay/base/process/fork_server_ohos.cc:407-434 | where parking, room, parameters and fork allow a launch, the server then holds the new child, an incarnation of its own, and the reply on its way announces it |
| ForkTheorems.StatusIsShown | overlay/base/process/fork_server_ohos.cc:450-458 | asking for a child the server holds ends with the browser showing it as running, with the stage and detail that child had reported last when the server answered |
| ForkTheorems.EntryStays | overlay/base/process/fork_server_ohos.cc:480-520 | what the browser knows of an ended child stays the same, through replies, losses of the server and other children, until its pid is announced again |
| ForkTheorems.ReusedPidRuns | overlay/base/process/fork_server_ohos.cc:681-684 | if one reply ends a pid and announces it anew, the browser ends with it running and standing for the new child |
| ForkTheorems.ClosedForGood | overlay/base/process/fork_server_ohos.cc:480-618 | after the socket closed no child ever counts as running again, and no server is started again |
| ForkTheorems.NoChildSurvives | overlay/base/process/fork_server_ohos.cc:392-477 | when the loop ends, by a stop, by a reply that cannot be sent, or by an end of file or a garbled request, the server has no child left |
| ForkTheorems.ReapLoopIsSteps | overlay/base/process/fork_server_ohos.cc:290-309 | the reaping loop is a run of single waits of the interleaved system |
| PerfJitLog.PerfJitLogger.constructor | overlay/arkweb/chromium_ext/v8/ohos-perf-jit.cc:92-106 | zeroed memory with the header at its start |
| PerfJitLog.PerfJitLogger.LogWriteBytes | overlay/arkweb/chromium_ext/v8/ohos-perf-jit.cc:204-209 | copies all of the bytes at the marker if they end before the last byte of the mapping, and otherwise nothing; no other byte changes |
| PerfJitLog.PerfJitLogger.WriteRecord | overlay/arkweb/chromium_ext/v8/ohos-perf-jit.cc:192-195 | four checked writes are one write of the whole record |
| PerfJitLog.PerfJitLogger.WriteJitCodeLoadEntry | overlay/arkweb/chromium_ext/v8/ohos-perf-jit.cc:172-202 | a record that fits with its terminator stands where the marker was, the terminator behind it at the new marker, everything before unchanged; one that does not is dropped; either way it uses up its number |
| PerfJitLog.GetJitCode | overlay/arkweb/chromium_ext/v8/parse-jitcode.cc:42-78 | the reader's loop ends and equals the recursive reader, reads beyond the copy included |
| PerfJitRoundTrip.WriteHolds | overlay/arkweb/chromium_ext/v8/ohos-perf-jit.cc:190-201 | a new record stands exactly where the terminator stood and leaves everything before it |
| PerfJitRoundTrip.AllHolds | overlay/arkweb/chromium_ext/v8/ohos-perf-jit.cc:172-202 | after any number of entries the log is the kept records end to end, then the terminator |
| PerfJitRoundTrip.PieceOfRecord | overlay/arkweb/chromium_ext/v8/parse-jitcode.cc:48-66 | a record's bytes are read as its address, the name up to its first NUL and the code from behind it, and refused under any other number |
| PerfJitRoundTrip.HeadFields | overlay/arkweb/chromium_ext/v8/ohos-perf-jit.cc:175-188 | every field of a record's fixed part: kind, size, time, process, thread, address twice, length of the code, number |
| PerfJitRoundTrip.HeaderFields | overlay/arkweb/chromium_ext/v8/ohos-perf-jit.cc:211-226 | every field of the header: magic number, version, size, machine, process, time, no flags |
| PerfJitRoundTrip.StartsWithZero | overlay/arkweb/chromium_ext/v8/perf-jit-common.h:39-60 | no record start can be taken for the terminator, since its first field is kLoad |
| PerfJitRoundTrip.ReadRecords | overlay/arkweb/chromium_ext/v8/parse-jitcode.cc:42-78 | the reader walks from record to record and stops at the terminator |
| PerfJitRoundTrip.WalkOutcome | overlay/arkweb/chromium_ext/v8/parse-jitcode.cc:50-54 | the walk succeeds exactly if the records are numbered without a gap |
| PerfJitRoundTrip.NumberedFromZero | overlay/arkweb/chromium_ext/v8/ohos-perf-jit.cc:186-191 | the records are numbered from zero exactly in a first mapping in which nothing was logged after a dropped entry |
| PerfJitRoundTrip.HeaderOutlives | overlay/arkweb/chromium_ext/v8/parse-jitcode.cc:32-40 | the header is found, and skipped, after any number of entries |
| PerfJitRoundTrip.RoundTripExactly | overlay/arkweb/chromium_ext/v8/parse-jitcode.cc:42-78 | the reader returns the logged entries in order exactly if numbers start at zero, something was logged and nothing follows a dropped entry; they are the logged triples exactly if no name holds a NUL; otherwise it refuses, and it never reads out of bounds |
| PerfJitRoundTrip.RoundTrip | overlay/arkweb/chromium_ext/v8/ohos-perf-jit.cc:172-209 | with room for all, a first mapping gives back every address, code and name, names being free of NUL |
| PerfJitRoundTrip.ReadAsLogged | overlay/arkweb/chromium_ext/v8/parse-jitcode.cc:56-66 | a record is read as it was logged exactly if its name holds no NUL |
| PerfJitRoundTrip.SecondMappingRefused | overlay/arkweb/chromium_ext/v8/ohos-perf-jit.cc:186-191 | the log of a mapping whose numbers do not start at zero is refused, whatever it holds |
| PerfJitRoundTrip.GapRefused | overlay/arkweb/chromium_ext/v8/ohos-perf-jit.cc:186-191 | so is a log with an entry logged after a dropped one |
| PerfJitOverrun.RoundOverruns | overlay/arkweb/chromium_ext/v8/parse-jitcode.cc:48-69 | the reader leaves the mapping in one round exactly if the fixed part is cut off where it is needed, or the accepted record has a name without NUL, or code longer than what is left, or less than a terminator behind it that does not differ from one |
| PerfJitOverrun.ReadOverruns | overlay/arkweb/chromium_ext/v8/parse-jitcode.cc:42-78 | for an arbitrary mapping: the reader reads beyond it exactly if some record it gets to overruns |
| PerfJitOverrun.MappingOverruns | overlay/arkweb/chromium_ext/v8/parse-jitcode.cc:32-120 | the same for reading a mapping as a whole: exactly if its header is accepted and, from where that header says it ends, some record the reader gets to overruns |
| PerfJitOverrun.NameWithoutEnd | overlay/arkweb/chromium_ext/v8/parse-jitcode.cc:32-59 | a mapping whose header is accepted and has the right length, where reading it goes beyond it, the first name having no end |
| ElfImage.GenerateElf | overlay/arkweb/chromium_ext/v8/parse-jitcode.cc:194-240 | the two loops print header, program headers and code end to end |
| ElfImage.CodeAtOffset | overlay/arkweb/chromium_ext/v8/parse-jitcode.cc:221-237 | each block's bytes are at the file offset its program header records |
| ElfImage.Identification | overlay/arkweb/chromium_ext/v8/parse-jitcode.cc:202-210 | every image gives 6 as the version of its identification where EV_CURRENT is 1, and marks a 64-bit file as EM_ARM |
| ElfImage.FileHeader | overlay/arkweb/chromium_ext/v8/parse-jitcode.cc:200-220 | every field of the file header: magic bytes, executable, entry at the first block, program headers right behind, no sections, sizes of headers |
| ElfImage.ProgramHeader | overlay/arkweb/chromium_ext/v8/parse-jitcode.cc:221-237 | every field of a block's program header: loadable, readable and executable, at its offset and address, as long as its code, page-aligned |
| ElfImage.ElfParser.Load | overlay/arkweb/chromium_ext/v8/parse-jitcode.cc:242-262 | refuses exactly on a different number of headers; otherwise, for any data, has an entry for each address of a loadable and executable header, as the last such header has it, and no other |
| ElfImage.ElfParser.GetInstruction | overlay/arkweb/chromium_ext/v8/parse-jitcode.cc:264-272 | names some segment that contains the counter if there is one, whatever the order of the table |
| ElfImage.LoadedBack | overlay/arkweb/chromium_ext/v8/parse-jitcode.cc:253-258 | the loader reads back from header i exactly what block i is |
| ElfImage.LoadsBack | overlay/arkweb/chromium_ext/v8/parse-jitcode.cc:242-262 | an image is loaded back exactly if it has fewer than 65536 blocks, and then to the table of its blocks |
| ElfImage.LookupExact | overlay/arkweb/chromium_ext/v8/parse-jitcode.cc:264-272 | for nonempty, disjoint, non-wrapping blocks the answer is the one block that covers the counter, or none |
| ElfImage.Extract | overlay/arkweb/chromium_ext/v8/parse-jitcode.cc:124-131 | printing, loading and looking up agree, end to end |
| Bridge.Decode | overlay/components/ohos_system_service/system_service_ohos.cc:127-162 | an answer exactly if the id is positive, and then to that id, saying what the message says; an event exactly if there is no such id but a service and an event, with the data given; a failed answer always has an error text |
| Bridge.Bridge.PostOrphans | overlay/components/ohos_system_service/system_service_ohos.cc:71-76 | one error task for every orphaned call, on its own sequence, in order of identifiers |
| Bridge.Bridge.SetDispatcher | overlay/components/ohos_system_service/system_service_ohos.cc:61-77 | without a dispatcher nothing stays pending and every pending call gets one error |
| Bridge.Bridge.Call | overlay/components/ohos_system_service/system_service_ohos.cc:84-120 | the reply is posted at once, or pending with the request sent, or both registered and answered by an encoding error: one of the three |
| Bridge.Bridge.Cancel | overlay/components/ohos_system_service/system_service_ohos.cc:122-125 | answers a pending call once and otherwise does nothing |
| Bridge.Bridge.Complete | overlay/components/ohos_system_service/system_service_ohos.cc:197-211 | takes the call out and posts its reply on its own sequence; a late or repeated one posts nothing |
| Bridge.Bridge.DeliverMessage | overlay/components/ohos_system_service/system_service_ohos.cc:127-179 | a positive id takes out the call pending under that very id, and posts on its sequence a reply that succeeded, failed, carries the result and the error text as the message says; otherwise an event goes once, in order, to exactly the subscribers of its service; anything else changes nothing |
| Bridge.Bridge.AddSubscriber | overlay/components/ohos_system_service/system_service_ohos.cc:181-188 | identifiers are never reused |
| Bridge.Bridge.RemoveSubscriber | overlay/components/ohos_system_service/system_service_ohos.cc:190-194 | removes exactly the subscribers of that identifier |
| Bridge.Bridge.FindSubscriber | overlay/components/ohos_system_service/system_service_ohos.cc:215-225 | a subscriber removed meanwhile is not called |
| BridgeRuns.InvRun | overlay/components/ohos_system_service/system_service_ohos.cc:61-211 | in every interleaving of the locked pieces every reply is where its history says |
| BridgeRuns.ExactlyOnce | overlay/components/ohos_system_service/system_service_ohos.cc:61-211 | each reply is pending, or owed, or posted, exactly one of these; pending under one identifier only, owed by one thread once, and never posted twice |
| BridgeRuns.QuietBridge | overlay/components/ohos_system_service/system_service_ohos.cc:61-125 | with no thread inside, a call is pending or answered by one task; without a dispatcher it is answered |
| BridgeRuns.DetachedIsEmpty | overlay/components/ohos_system_service/system_service_ohos.cc:61-77 | whenever the lock is free, no dispatcher means nothing is pending |
| BridgeRuns.RepliesReachTheirCalls | overlay/components/ohos_system_service/system_service_ohos.cc:197-211 | a posted reply is on the sequence of its own call and answers its own identifier |
| BridgeRuns.RepliesWereBrought | overlay/components/ohos_system_service/system_service_ohos.cc:61-211 | whatever was posted says what was brought for its own identifier: the answer, cancellation or timeout itself, or one of the errors of the bridge where there was reason: no dispatcher at the call, a request of that identifier that could not be encoded, or its call pending when the dispatcher went away |
| BridgeRuns.IdsDiffer | overlay/components/ohos_system_service/system_service_ohos.cc:96-97 | no two calls get the same identifier |
| BridgeRuns.SpentForGood | overlay/components/ohos_system_service/system_service_ohos.cc:197-211 | an identifier that was taken out never becomes pending again |
| BridgeRuns.LateAnswersDoNothing | overlay/components/ohos_system_service/system_service_ohos.cc:274-289 | an answer, cancellation or timeout that comes after its call was settled changes nothing, however late |
| AccessibilityTree.AddDescendants | overlay/components/ohos_accessibility/accessibility_provider_ohos.cc:152-165 | terminates on every graph, cyclic or with dangling ids, and adds exactly the children, or exactly what children lists lead to without passing through an id already there |
| AccessibilityTree.SubtreeIsReached | overlay/components/ohos_accessibility/accessibility_provider_ohos.cc:223-224 | started from one node this is the whole subtree |
| AccessibilityTree.VisitsTheSubtree | overlay/components/ohos_accessibility/accessibility_provider_ohos.cc:248-249 | a search visits exactly the ids reachable from its start, when nodes are keyed by their ids |
| AccessibilityTree.FindByText | overlay/components/ohos_accessibility/accessibility_provider_ohos.cc:215-237 | lists exactly the visited nodes that have the text, character by character, somewhere in their name, or in their value unless that is a password; each id once, ascending |
| AccessibilityTree.FindFocused | overlay/components/ohos_accessibility/accessibility_provider_ohos.cc:239-260 | a visited node with the asked focus, at no greater id than any other visited node with it, and a failure exactly if there is none |
| AccessibilityTree.Predecessors | overlay/components/ohos_accessibility/accessibility_provider_ohos.cc:180-185 | the node and exactly what the climb along parent fields meets until it has nothing above or comes to an id it already met, although these fields may form a cycle |
| AccessibilityTree.ClimbedIsAbove | overlay/components/ohos_accessibility/accessibility_provider_ohos.cc:180-185 | in a snapshot that keeps nodes under their own ids this is exactly everything above the node |
| AccessibilityTree.FindById | overlay/components/ohos_accessibility/accessibility_provider_ohos.cc:167-213 | in any snapshot: the nodes at the predecessors, siblings and descendants asked for, each id once, ascending; a failure exactly if the id is unknown |
| AccessibilityTree.FindNext | overlay/components/ohos_accessibility/accessibility_provider_ohos.cc:262-289 | the nearest entry on the asked side of the node's first entry that is visible and focusable, named or editable, and a failure exactly if there is none |
| AccessibilityTree.ThereAndBack | overlay/components/ohos_accessibility/accessibility_provider_ohos.cc:272-288 | in a duplicate-free order, one step and back returns to an acceptable node exactly if the entry reached holds its node's own id |
| AccessibilityTree.AliasLosesTheWay | overlay/components/ohos_accessibility/accessibility_provider_ohos.cc:57-63 | an order that names the root by -1, where the way back fails |
| AccessibilityProviders.InstanceNamesDiffer | overlay/components/ohos_accessibility/accessibility_provider_ohos.cc:404-405 | instance names are equal exactly for the same component and generation |
| AccessibilityProviders.DecimalIsNumeral | overlay/components/ohos_accessibility/accessibility_provider_ohos.cc:404-405 | a generation is written in decimal digits, without a zero in front |
| AccessibilityProviders.Act | overlay/components/ohos_accessibility/accessibility_provider_ohos.cc:300-354 | exactly which actions succeed on which nodes; the focus changes only for the two actions on it; the last callback is the action on the node found, with the text for a set text and none else, and only a gained focus is preceded by one, for the loser |
| AccessibilityProviders.FocusIsTold | overlay/components/ohos_accessibility/accessibility_provider_ohos.cc:300-354 | an action's callbacks tell the nodes where the focus is, with never two holding it at once, exactly unless ids below -1 are involved |
| AccessibilityProviders.PerformOk | overlay/components/ohos_accessibility/accessibility_provider_ohos.cc:300-354 | no action changes anything of a provider but its focus, and the focus stays nowhere or on a node |
| AccessibilityProviders.FocusNeedsKeys | overlay/components/ohos_accessibility/accessibility_provider_ohos.cc:322-331 | taking the focus keeps it on a node of the snapshot exactly if the node is kept under its own id |
| AccessibilityProviders.FocusCanBeCleared | overlay/components/ohos_accessibility/accessibility_provider_ohos.cc:358-369 | giving up a held focus succeeds exactly if there is an action callback and the node found has the focused id itself, which it has when nodes are kept under their own ids |
| AccessibilityProviders.ClearingFocus | overlay/components/ohos_accessibility/accessibility_provider_ohos.cc:367-368 | giving up a focus read earlier succeeds exactly if it is still there and an action callback is, whatever came between |
| AccessibilityProviders.RunOk | overlay/components/ohos_accessibility/accessibility_provider_ohos.cc:385-488 | in every reachable state focus is -1 or on a node of the current snapshot, if that keeps nodes under their own ids; generations and instances are distinct, and an unasked provider shows only the blank root |
| AccessibilityProviders.TouchesOnlyItsOwn | overlay/components/ohos_accessibility/accessibility_provider_ohos.cc:449-475 | an event changes no provider but the one of the generation it addresses |
| AccessibilityProviders.StaleForEver | overlay/components/ohos_accessibility/accessibility_provider_ohos.cc:449-475 | a generation that was replaced or unregistered never returns, and whatever is done in its name changes nothing |
| AccessibilityProviders.Whose | overlay/components/ohos_accessibility/accessibility_provider_ohos.cc:393-436 | in every run a component has a provider exactly if an insertion for it was neither replaced nor given up by its own window since, and it has the window and generation of that insertion |
| AccessibilityProviders.RefusalExactly | overlay/components/ohos_accessibility/accessibility_provider_ohos.cc:393-427 | a refused registration, whatever other threads did since its insertion, leaves every other provider alone exactly if the provider its component has by then was not inserted for the same window after it |
| AccessibilityProviders.Providers.InsertProvider | overlay/components/ohos_accessibility/accessibility_provider_ohos.cc:393-413 | the first locked piece: an existing provider is kept, a new one has a new generation, shows the blank root, and nobody has asked for it |
| AccessibilityProviders.Providers.InstanceOf | overlay/components/ohos_accessibility/accessibility_provider_ohos.cc:414-418 | the second: the instance name under which callbacks are set, nothing if the provider is gone by then |
| AccessibilityProviders.Providers.RegisterProvider | overlay/components/ohos_accessibility/accessibility_provider_ohos.cc:385-428 | the pieces one after the other, when no other thread comes between: a refused new provider is taken out again, and nothing else changes |
| AccessibilityProviders.Providers.UnregisterProvider | overlay/components/ohos_accessibility/accessibility_provider_ohos.cc:430-436 | only the window that registered a provider takes it out |
| AccessibilityProviders.Providers.RequestedProviderGeneration | overlay/components/ohos_accessibility/accessibility_provider_ohos.cc:438-443 | zero exactly until the provider has been asked for |
| AccessibilityProviders.Providers.PublishSnapshot | overlay/components/ohos_accessibility/accessibility_provider_ohos.cc:445-468 | only a requested provider of that generation changes: it then has the snapshot and the callback, and keeps its focus exactly if that is still on a node or the snapshot is the same |
| AccessibilityProviders.Providers.ClearSnapshot | overlay/components/ohos_accessibility/accessibility_provider_ohos.cc:470-488 | only the owner's snapshot of that generation is replaced by the blank root, focus and callback given up |
| AccessibilityProviders.Providers.Find | overlay/components/ohos_accessibility/accessibility_provider_ohos.cc:44-55 | finds the one provider of an instance and marks it as asked for |
| AccessibilityProviders.Providers.ExecuteAction | overlay/components/ohos_accessibility/accessibility_provider_ohos.cc:291-356 | no other provider changes, and of the one found only the focus, by a successful action on the focus; exactly the callback calls of the action run, and none on a failure |
| AccessibilityProviders.Providers.ReadFocus | overlay/components/ohos_accessibility/accessibility_provider_ohos.cc:358-366 | the first locked piece of giving up the focus: where it is, the provider marked as asked for |
| AccessibilityProviders.Providers.ClearAccessibilityFocus | overlay/components/ohos_accessibility/accessibility_provider_ohos.cc:358-369 | the pieces one after the other, when no other thread comes between: ends with no focus unless there is no callback to tell or the node found has another id |
| PatchSections.SplittingIsLossless | scripts/refresh-incremental-patch.py:20-24 | joining what was split gives the patch back |
| PatchSections.ChunksAreSections | scripts/refresh-incremental-patch.py:21-28 | every piece but perhaps the first begins with its only header |
| PatchSections.SectionsSurviveJoining | scripts/refresh-incremental-patch.py:44-45 | splitting what was joined gives the sections back |
| PatchSections.Sections | scripts/refresh-incremental-patch.py:20-32 | a dictionary of sections exactly if every piece has a header and no file has two |
| PatchSections.SkippingIsExact | scripts/refresh-incremental-patch.py:34-45 | reversing all of the old and applying all of the new patch yields a tree exactly if replacing only the changed sections yields it and the unchanged ones can be reversed and applied again |
| PatchSections.OnlySkippingSucceeds | scripts/refresh-incremental-patch.py:18-45 | where a later patch changed the context a section needs: it once applied and reversed, now reverses and no longer applies; skipping it succeeds, replacing the whole fails |
| PatchRefresh.PickedSections | scripts/refresh-incremental-patch.py:37-45 | what is skipped and what is replaced are exactly the equal and the different sections |
| PatchRefresh.SameEitherWay | scripts/refresh-incremental-patch.py:37-45 | the same on patches as text: replacing the whole gives a tree exactly if replacing the changed sections gives it and the skipped ones reverse and apply again |
| PatchRefresh.PassedOnIsTheWhole | scripts/refresh-incremental-patch.py:18-45 | wherever replacing the whole succeeds, what is passed on gives the same tree; it succeeds besides exactly where a skipped section reverses but does not apply again |
| PatchRefresh.ChangedSections | scripts/refresh-incremental-patch.py:18-45 | fails exactly if unchanged sections cannot be reversed; a legacy patch is passed on whole, of others the changed sections, which name no other file |
| PatchRefresh.WorkTree.RunGit | scripts/refresh-incremental-patch.py:75-79 | a run replaces the named files and gives them new times, or leaves them in any state |
| PatchRefresh.WorkTree.PutBack | scripts/refresh-incremental-patch.py:81-89 | every saved path is as saved, absent ones removed |
| PatchRefresh.WorkTree.KeepTimes | scripts/refresh-incremental-patch.py:91-97 | a file with the saved bytes and mode gets the saved times, any other keeps its own |
| PatchRefresh.WorkTree.Refresh | scripts/refresh-incremental-patch.py:48-98 | failure or interruption leaves every file as it was, times included; success gives the tree of replacing what is passed on, with old times exactly on files with equal bytes and mode; uninterrupted, it succeeds exactly if the unchanged sections reverse and that replacement succeeds |
| Opcodes.OneEdit | scripts/merge-platform-lists.py:75-81 | with a single edit, both sequences are the same before and after it |
| ConflictResolver.Classify | scripts/resolve-ohos-conflicts.py:78-90 | accepts exactly if some added line is marked, every added line is marked or structural, and no removed line is marked |
| ConflictResolver.FindHits | scripts/resolve-ohos-conflicts.py:118-119 | the first place of an anchor, and whether it is the only one |
| ConflictResolver.ApplyEdit | scripts/resolve-ohos-conflicts.py:108-137 | where each edit lands: an insertion at the start, or behind the only line like its anchor; a replacement at the first line like the first it replaces; and exactly when and why it is refused |
| ConflictResolver.ResolveBlock | scripts/resolve-ohos-conflicts.py:93-138 | the decision about a block, edits applied last first |
| ConflictResolver.ResolvedByEdits | scripts/resolve-ohos-conflicts.py:93-138 | a block is resolved, and to what, exactly if the classification accepts it and each edit, the last first, finds its place |
| ConflictResolver.LinesAreConserved | scripts/resolve-ohos-conflicts.py:107-138 | a resolution holds all lines of ours and all added lines but for at most as many as the replaced runs have |
| ConflictResolver.InsertionsConserve | scripts/resolve-ohos-conflicts.py:111-121 | with insertions only, ours is a subsequence, the lines are ours plus the added ones, and every added line with logic is marked |
| ConflictResolver.UnchangedUpstream | scripts/resolve-ohos-conflicts.py:107-138 | if ours is base and no replaced run's first line occurs earlier, the result is theirs |
| ConflictResolver.OneReplacement | scripts/resolve-ohos-conflicts.py:128-133 | for one replaced run that condition is exact |
| ConflictResolver.OneReplacementResolves | scripts/resolve-ohos-conflicts.py:122-135 | such a block is refused only by its classification or because the run is the whole block |
| ConflictResolver.WrongOneReplaced | scripts/resolve-ohos-conflicts.py:45-133 | an unchanged upstream block where an accepted replacement, by a line that the adapter's own pattern marks, lands on the wrong line |
| ConflictResolver.TwoWrongsMakeARight | scripts/resolve-ohos-conflicts.py:128-133 | for any lines: in [x, c, x] turned into [y, c, y] both edits land on the wrong x, and the result is theirs all the same |
| ConflictResolver.RewriteFile | scripts/resolve-ohos-conflicts.py:164-198 | the text between conflicts and every refused conflict come out verbatim, every resolved one as its resolution, in order; with nothing resolved the text is unchanged |
| Guards.EnclosingIf | scripts/find-missing-returns.py:64-78 | the index of the line whose block ends here, -1 exactly if there is none, and an else exactly if that block has one of its own |
| Guards.MatchIsUnique | scripts/find-missing-returns.py:64-78 | an #endif closes at most one block |
| Guards.BlockBody | scripts/audit-ohos-guards.py:93-109 | exactly the lines before the first #elif, #else or #endif at the arm's own level |
| Guards.DirectiveSpan | scripts/audit-ohos-guards.py:81-90 | the directive's last line: the first one not continued, or the end of the file |
| Guards.ContinuationsDoNotCount | scripts/audit-ohos-guards.py:145-146 | starting behind a directive's continuation lines finds the same end |
| Guards.ArmsOfMatch | scripts/audit-ohos-guards.py:98-106 | following the arms of a block visits exactly its own #elif, #else and #endif lines |
| Guards.MatchOfArms | scripts/audit-ohos-guards.py:98-106 | an #endif where the arms of an #if end is the one that closes it |
| Guards.ArmEndExact | scripts/audit-ohos-guards.py:98-106 | the forward walk never passes an arm's true end, and stops at it exactly if no #ifdef or #ifndef is in the arm |
| Guards.ForwardExact | scripts/audit-ohos-guards.py:98-106 | following the arms of a block ends at its #endif exactly if no #ifdef or #ifndef is inside |
| Guards.BackwardExact | scripts/find-missing-returns.py:64-78 | the backward walk finds the line that opens a block exactly if that line is not indented and the indented directives inside even out |
| Guards.ElseExact | scripts/find-missing-returns.py:64-78 | it reports an else exactly if one in the first column stands where every open inner block is an indented one |
| Guards.WalksAgree | scripts/find-missing-returns.py:64-78 | for every block of the preprocessor, both walks find it exactly if no #ifdef or #ifndef is inside, its opening line is not indented, and the indented directives inside even out |
| Guards.PlainWalksAgree | scripts/find-missing-returns.py:64-78 | without #ifdef and indented directives the walks agree on any two lines, and on the else |
| Guards.IfdefMisleads | scripts/audit-ohos-guards.py:55-56 | a block with a nested #ifdef, where the forward walk stops at the inner #endif |
| Guards.IndentMisleads | scripts/find-missing-returns.py:64-78 | an indented nested #if, where the backward walk takes the inner #endif for the outer one's, and an indented #else, which it misses |
| PlatformLists.JoinContinuations | scripts/merge-platform-lists.py:61-69 | the rewriting loop leaves no line but the last ending in a backslash |
| PlatformLists.JoiningOnce | scripts/merge-platform-lists.py:61-69 | joining is idempotent, and changes nothing exactly if nothing is continued |
| PlatformLists.JoiningKeepsInk | scripts/merge-platform-lists.py:61-69 | joining loses nothing but blanks and backslashes |
| PlatformLists.OneLineMore | scripts/merge-platform-lists.py:61-69 | a line behind a continued one follows it after one blank, stripped, where backslash and blanks were; any other line stands alone |
| PlatformLists.Rfind | scripts/merge-platform-lists.py:88-91 | the last occurrence of the suffix, if any |
| PlatformLists.ReplayedInsertion | scripts/merge-platform-lists.py:72-92 | re-applying an insertion to its own line gives the new line exactly if something follows it or the line does not end in blanks |
| PlatformLists.LeadRaises | scripts/merge-platform-lists.py:126-130 | the comparison of leading tokens raises exactly on a line that begins with a parenthesis |
| PlatformLists.LeadIsToken | scripts/merge-platform-lists.py:126-128 | otherwise it compares what the stripped lines begin with, up to a blank or a parenthesis |
| PlatformLists.MergedExactly | scripts/merge-platform-lists.py:72-141 | exactly when a block is merged, and when it raises an exception: the edit is one marked insertion in one line, some line of ours is close to it, begins alike, is no comment, not yet marked, and has the anchor; the text goes before the last place of the anchor |
| PlatformLists.MergedIsGrafted | scripts/merge-platform-lists.py:95-141 | a block is merged only if the edit is one marked insertion in one line, and then the result is ours but for that insertion in a line of ours that is no comment, not yet marked and starts alike |
| PlatformLists.UnchangedUpstream | scripts/merge-platform-lists.py:114-141 | if ours is base: what is accepted, and that accepting gives theirs exactly if the edited line is unique and the text did not go behind trailing blanks |
| ExitRegistry.StateOk | overlay/base/process/launch_ohos.cc:77-129 | in every reachable state a stamp means an exit with a signal, and an exited child has no pidfd |
| ExitRegistry.SignalIsCurrent | overlay/base/process/launch_ohos.cc:190-194 | the recorded signal is exactly that of the last notification, unless a launch begun after its stamp was tracked since |
| ExitRegistry.ExitedIff | overlay/base/process/launch_ohos.cc:164-199 | a child is shown as exited exactly if the last notification is not older than the last launch tracked since, or its pidfd showed the end or could no longer be opened |
| ExitRegistry.AnswerIsShown | overlay/base/process/launch_ohos.cc:468-476 | an inquiry answers yes exactly if a notification is current for the child or its pidfd showed the end by then; and nothing exactly of a stranger or a child that cannot be polled |
| ExitRegistry.OwnExitIsShown | overlay/base/process/launch_ohos.cc:118-129 | a child's own exit, once notified last, is shown with its signal |
| ExitRegistry.OlderExitIsShown | overlay/base/process/launch_ohos.cc:124-194 | the exit of an older child with the same number, notified last, is shown for the new child exactly if it is stamped at or after the start of the new launch; otherwise only the pidfd counts |
| ExitRegistry.NothingNotified | overlay/base/process/launch_ohos.cc:89-111 | without any notification a child is shown as exited exactly if its pidfd showed the end or could no longer be opened, and has no signal |
| ExitRegistry.LateCallbackMisleads | overlay/base/process/launch_ohos.cc:118-129 | a callback for the old child after the new launch began: the running new child is shown as exited |
| ExitRegistry.ExitedStays | overlay/base/process/launch_ohos.cc:468-476 | once exited, a child stays so until its number is tracked again |
| ExitRegistry.Tracker.OnNativeChildProcessExit | overlay/base/process/launch_ohos.cc:118-129 | the new entry says exited, with that signal and stamp and no pidfd; no other entry or descriptor is touched |
| ExitRegistry.Tracker.PollNativeChildExit | overlay/base/process/launch_ohos.cc:89-111 | the answer is what the entry then shows, and nothing exactly if the child is not known to have exited and cannot be polled; a ready pidfd shows the end, and it is closed then and on error |
| ExitRegistry.Tracker.PollAllOthers | overlay/base/process/launch_ohos.cc:184-188 | every other watched child is polled once |
| ExitRegistry.Tracker.Settle | overlay/base/process/launch_ohos.cc:189-198 | what was stamped before the launch is forgotten, an early exit kept; the new pidfd is what the child is then watched through, or closed |
| ExitRegistry.Tracker.TrackNativeChild | overlay/base/process/launch_ohos.cc:164-202 | all of it together: the registry is the specified one and no descriptor leaks |
| ExitRegistry.Tracker.HasExited | overlay/base/process/launch_ohos.cc:468-476 | the answer is what the registry then shows; nothing exactly for a stranger, and for a child not known to have exited that cannot be polled; no other entry changes |
| ExitRegistry.Tracker.ExitSignal | overlay/base/process/launch_ohos.cc:461-466 | the signal on record, none for a stranger |
| Attributes.StrToDict | overlay/arkweb/glue/scripts/file_parser.py:238-264 | fails exactly on a part with two equals signs, and otherwise builds the dictionary of its pairs |
| Attributes.PartSays | overlay/arkweb/glue/scripts/file_parser.py:244-254 | what a part says whatever blanks stand around: nothing, a bare name, or a name and the text behind its equals sign, both stripped |
| Attributes.PairsAreGiven | overlay/arkweb/glue/scripts/file_parser.py:242-254 | the pairs are those of exactly the parts that give one, in order |
| Attributes.DictToStr | overlay/arkweb/glue/scripts/file_parser.py:267-282 | fails exactly if a list holds a bare value, and otherwise prints every pair, name by name |
| Attributes.HoldsWhatWasGiven | overlay/arkweb/glue/scripts/file_parser.py:255-263 | the dictionary holds for each name exactly the values given to it, in order |
| Attributes.NamesInOrder | overlay/arkweb/glue/scripts/file_parser.py:255-263 | its names are in the order in which they were first given |
| Attributes.PrintedParses | overlay/arkweb/glue/scripts/file_parser.py:267-282 | what a dictionary prints as parses to that dictionary |
| Attributes.RoundTrip | overlay/arkweb/glue/scripts/file_parser.py:238-282 | for every string that parses: it prints again exactly if no name was both repeated and bare, and then parses to the same dictionary |
| JitFlags.JitlessRequested | overlay/base/process/ohos_jit_startup.h:36-59 | the scanner ends and equals the simple form: split at separators, the last recognised flag wins, otherwise false |
| JitFlags.LastIsLast | overlay/base/process/ohos_jit_startup.h:46-52 | a flag decides exactly if it is recognised and no later one is |
| JitFlags.LaterFlagsWin | overlay/base/process/ohos_jit_startup.h:36-59 | of two flag strings joined by a separator the second decides if it says anything, otherwise the first |

## Left out

- ForkServerProcess.ForkServer.Receive: the checks of magic number, sizes and control data are the input that makes a message count as garbled.
- ForkServerProcess.ForkServer.Answer: what the forked child runs (BindLifetime, ResetSignals, RunChild) is not modelled; nor are the retries on EINTR.
- ForkClientProcess.ForkClient.StopServer: the three-second polling for the server's end is one input, and so are the other deadlines; WaitForOhosForkChild repeats Status.
- ForkTheorems.EndedChildHasOwnStatus: a child whose end cannot be collected (ECHILD) is an end without a status in the kernel model, and has status -1.
- Descriptors.FdTable.CloseInheritedFds: the directory listing names every open descriptor once; which descriptors are loader or trace caches is an input.
- PerfJitRoundTrip.RoundTripExactly: for records shorter than 2^32 bytes and fewer than 2^64 entries, as the record format needs; the two loggers' filters on kinds of code come before it.
- PerfJitOverrun.RoundOverruns: a recorded code length that cannot be allocated makes the source raise an exception before it reads any of the code; the model has an overrun there.
- ElfImage.LoadsBack: for images within 64-bit file offsets; the process_vm_readv copy and the search for the mapping are not modelled.
- Bridge.Bridge.Call: identifiers are assumed not to reach INT_MAX; JSON text is a decoded message or nothing.
- BridgeRuns.ExactlyOnce: subscribers are not part of the interleavings; a task posted to a stopped sequence counts as posted.
- AccessibilityTree.FindById: the query counter and its log are left out.
- AccessibilityTree.FindNext: null out-parameters and the filling of element infos are left out in all searches; GetCursor is a field access.
- AccessibilityProviders.RunOk: events sent to the screen reader are left out; a run interleaves the locked pieces of registering and of giving up the focus with everything else.
- AccessibilityProviders.Providers.RegisterProvider: states the pieces one after the other; what another thread does in between is in the runs of RunOk and RefusalExactly. If the provider is gone before the second piece the source raises an exception, which InstanceOf has as nothing.
- PatchRefresh.WorkTree.Refresh: a header line names one file, so equal files have equal headers; directories, symbolic links and file types other than regular ones are refused by one input; repair_known_inputs is not modelled.
- ConflictResolver.UnchangedUpstream: with several replaced runs the condition is sufficient only, because two misplaced edits can happen to restore the order (TwoWrongsMakeARight); for one run OneReplacement makes it exact.
- Guards.EnclosingIf: lines are classified as directives beforehand, and the two scripts' patterns are taken to agree on malformed words such as `#elsewhere`; function_signature is a text heuristic and not modelled.
- PlatformLists.UnchangedUpstream: the closest match is an input that returns the line itself when it is there.
- ExitRegistry.OlderExitIsShown: times are those of one clock and positive, and the pidfd opened for a number is taken to be that of the child just launched.
- Attributes.RoundTrip: blanks are those of str.isspace.
- Child launch parameters, the sandbox probes and the JSON of launch options (launch_ohos.cc) are input and output plumbing.
- The C++ wrapper generators, the audio, battery and certificate adapters, and the frame statistics have little structure beyond calls to libraries that are not part of this model.
- No member models time, threads' fairness or performance: every theorem is about safety.
